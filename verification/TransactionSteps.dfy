/** Every operation of a transaction only writes where the disk protocol allows it, and keeps
    the whole container consistent. */
module TransactionSteps {
  import opened Bitmaps
  import opened Checkpoints
  import opened Crashes
  import opened Spaceman
  import opened SpaceCopies
  import opened Transactions
  import R = IpBitmaps

  // What stays the same

  /** Only the running transaction has changed. */
  ghost predicate SameLast(fs: Fs, fs2: Fs) {
    && fs2 == fs.(now := fs2.now, trans := fs2.trans, phase := fs2.phase, st := fs2.st)
    && fs2.st.used == fs.st.used && fs2.st.cp == fs.st.cp && fs2.st.image == fs.st.image
  }

  lemma SameLastOk(fs: Fs, fs2: Fs)
    requires Shape(fs) && LastOk(fs) && SameLast(fs, fs2) && Inv(fs.geo, fs2.st)
    ensures Shape(fs2) && LastOk(fs2)
  {
    hide Inv, Sm.Inv, BitmapsOn;
  }

  /** Some blocks were written where it is allowed. */
  lemma WroteLast(fs: Fs, w: Disk, fs2: Fs)
    requires Shape(fs) && LastOk(fs) && Enabled(fs.geo, fs.st, WriteBlocks(w))
    requires fs2 == fs.(now := fs2.now, trans := fs2.trans, phase := fs2.phase,
      st := Apply(fs.geo, fs.st, WriteBlocks(w)))
    ensures Shape(fs2) && LastOk(fs2) && fs2.Cache() == fs.Cache() + w && SameLast(fs, fs2)
  {
    hide Inv, Enabled, LastOk;
    assert Inv(fs.geo, fs.st) by { LastInv(fs); }
    WriteBlocksKeeps(fs.geo, fs.st, w);
    SameLastOk(fs, fs2);
    assert fs.st.disk + (fs.st.dirty + w) == fs.st.disk + fs.st.dirty + w;
  }

  lemma LastInv(fs: Fs)
    requires Shape(fs) && LastOk(fs)
    ensures Inv(fs.geo, fs.st)
  {
  }

  // The parts of the running transaction

  /** What is written is in the pool, or right for the transaction. */
  ghost predicate RightWrites(fs: Fs, w: Disk) {
    forall b :: b in w ==> fs.now.sm.InIp(b) || fs.IsFixed(b) || (w[b].Object? ==> w[b].xid == fs.now.sm.xid)
  }

  ghost predicate SamePool(sm: Sm, sm2: Sm) {
    sm2.ipBase == sm.ipBase && |sm2.ipUsed| == |sm.ipUsed| && sm2.xid == sm.xid
  }

  lemma TransAfter(fs: Fs, w: Disk, fs2: Fs)
    requires TransOk(fs) && RightWrites(fs, w) && SameLast(fs, fs2) && fs2.Cache() == fs.Cache() + w
    requires SamePool(fs.now.sm, fs2.now.sm)
    requires forall b :: b in fs2.trans && b !in fs.trans ==>
      b in w && b !in fs.Committed() && !fs.IsFixed(b) && !fs.now.sm.InIp(b)
    ensures TransOk(fs2)
  {
    hide Sm.OwnBlocks;
  }

  /** The space manager has written all of its copies, and nothing else was written to the
      pool. */
  lemma CopiesAfter(fs2: Fs, cache: Disk, cibs: nat -> Block, w: Disk)
    requires fs2.now.sm.Shape() && fs2.Cache() == cache + w
    requires forall b :: b in CurrentBlocks(fs2.now.sm) ==> b in w && w[b] == SpaceWrites(fs2.now.sm, cibs)[b]
    ensures CopiesOn(fs2)
  {
    var sm := fs2.now.sm;
    forall i | 0 <= i < |sm.chunks| && CurrentChunk(sm, i)
      ensures BitmapOn(fs2.Cache(), sm, i)
    {
      assert sm.chunks[i].bmap in CurrentBitmaps(sm);
    }
  }

  /** Nothing was written to the pool. */
  lemma CopiesSame(fs: Fs, fs2: Fs, w: Disk)
    requires CopiesOn(fs) && fs2.Cache() == fs.Cache() + w && (forall b :: b in w ==> !fs.now.sm.InIp(b))
    requires forall b :: b in CurrentBlocks(fs.now.sm) ==> fs.now.sm.InIp(b)
    requires fs2.now.sm ==
      fs2.now.sm.(xid := fs.now.sm.xid, chunks := fs.now.sm.chunks, cibs := fs.now.sm.cibs, disk := fs.now.sm.disk)
    ensures CopiesOn(fs2)
  {
    var sm := fs2.now.sm;
    assert CurrentBitmaps(sm) == CurrentBitmaps(fs.now.sm) && CurrentCibs(sm) == CurrentCibs(fs.now.sm);
    forall i | 0 <= i < |sm.chunks| && CurrentChunk(sm, i)
      ensures BitmapOn(fs2.Cache(), sm, i)
    {
      assert CurrentChunk(fs.now.sm, i) && BitmapOn(fs.Cache(), fs.now.sm, i);
      assert sm.chunks[i].bmap in CurrentBitmaps(fs.now.sm);
    }
  }

  // Allocation

  lemma TakeSpace(fs: Fs, i: nat)
    requires SpaceOk(fs) && HasFree(fs.now.sm, i)
    ensures fs.now.sm.Shape()
    ensures var sm, b := fs.now.sm.Alloc(i), FirstFree(fs.now.sm, i);
      && sm.Inv(fs.now.live + {b}, 0, 0, fs.Committed(), fs.last.sm.disk) && sm.xid == fs.now.sm.xid
      && Copies(fs.now.sm, sm) && Copies(fs.last.sm.(xid := sm.xid), sm)
      && b > 0 && b !in fs.now.live && b !in fs.Committed() && !sm.InIp(b) && !fs.now.sm.InIp(b)
  {
    hide Zeros, Sm.Owned, Sm.Counted, Sm.Protects, Sm.Dated, Copies, FindZero, Sm.Bits, Sm.Alloc;
    var sm := fs.now.sm;
    AllocKeeps(sm, fs.now.live, 0, 0, fs.Committed(), fs.last.sm.disk, i);
    AllocCopies(sm, fs.now.live, 0, 0, fs.Committed(), fs.last.sm.disk, i);
    CopiesThen(fs.last.sm.(xid := sm.xid), sm, sm.Alloc(i));
    SamePools(sm, sm.Alloc(i));
  }

  lemma SamePools(sm: Sm, sm2: Sm)
    requires Copies(sm, sm2)
    ensures SamePool(sm, sm2)
  {
  }

  lemma TakeEnabled(fs: Fs, i: nat, block: Block, cibs: nat -> Block)
    requires Shape(fs) && FsInv(fs) && fs.phase == Open && fs.now.sm.Shape() && HasFree(fs.now.sm, i)
    ensures Enabled(fs.geo, fs.st, WriteBlocks(TakeWrites(fs, i, block, cibs)))
  {
    hide Inv, Sm.Inv, LastOk, CurrentBlocks, Copies, Sm.OwnBlocks, Outside, FirstFree, TransOk, CopiesOn, Sm.Shape;
    var sm, b := fs.now.sm.Alloc(i), FirstFree(fs.now.sm, i);
    TakeSpace(fs, i);
    forall x | x in TakeWrites(fs, i, block, cibs)
      ensures Outside(fs.geo, x) && x !in fs.st.used
    {
      if x == b { SpareBlock(fs, x); } else { SpareCopy(fs, sm, fs.now.live + {b}, 0, 0, x); }
    }
  }

  /** An allocation keeps the container consistent. */
  lemma TakeKeeps(fs: Fs, i: nat, block: Block, cibs: nat -> Block)
    requires Shape(fs) && FsInv(fs) && fs.phase == Open && fs.now.sm.Shape() && HasFree(fs.now.sm, i)
    requires block.Object? ==> block.xid == fs.now.sm.xid
    ensures FsInv(Took(fs, fs.(st := Apply(fs.geo, fs.st, WriteBlocks(TakeWrites(fs, i, block, cibs)))), i))
  {
    hide Inv, Sm.Inv, LastOk, CurrentBlocks, Copies, Sm.OwnBlocks, Outside, FirstFree, TransOk, CopiesOn, Sm.Shape,
      Enabled;
    var w, b := TakeWrites(fs, i, block, cibs), FirstFree(fs.now.sm, i);
    var fs2 := Took(fs, fs.(st := Apply(fs.geo, fs.st, WriteBlocks(w))), i);
    TakeSpace(fs, i);
    TakeEnabled(fs, i, block, cibs);
    WroteLast(fs, w, fs2);
    SamePools(fs.now.sm, fs2.now.sm);
    forall x | x in CurrentBlocks(fs2.now.sm)
      ensures fs.now.sm.InIp(x) && x != b
    {
      SpareCopy(fs, fs2.now.sm, fs2.now.live, 0, 0, x);
    }
    TransAfter(fs, w, fs2);
    InvShape(fs2.now.sm, fs2.now.live, 0, 0, fs.Committed(), fs.last.sm.disk);
    CopiesAfter(fs2, fs.Cache(), cibs, w);
  }

  lemma InvShape(sm: Sm, live: set<nat>, lo: nat, hi: nat, committed: set<nat>, kept: map<nat, seq<bool>>)
    requires sm.Inv(live, lo, hi, committed, kept)
    ensures sm.Shape() && 0 in live
  {
  }

  // Freeing

  lemma ReleaseSpace(fs: Fs, b: nat)
    requires SpaceOk(fs) && b in fs.now.live && b > 0 && fs.now.sm.xid > 0
    ensures var sm := fs.now.sm.QueueInsert(b, 1);
      && sm.Inv(fs.now.live - {b}, 0, 0, fs.Committed(), fs.last.sm.disk)
      && Copies(fs.last.sm.(xid := sm.xid), sm) && SamePool(fs.now.sm, sm)
  {
    hide Sm.Owned, Sm.Counted, Sm.Protects, Sm.Dated, Sm.PoolReserved, Copies, Sm.QueueInsert;
    var sm := fs.now.sm;
    QueueInsertKeeps(sm, fs.now.live, fs.Committed(), fs.last.sm.disk, b, 1);
    assert fs.now.live - Range(b, 1) == fs.now.live - {b};
    MemoryCopies(sm, sm.QueueInsert(b, 1));
    CopiesThen(fs.last.sm.(xid := sm.xid), sm, sm.QueueInsert(b, 1));
  }

  lemma OwnInPool(sm: Sm, live: set<nat>, lo: nat, hi: nat, committed: set<nat>, kept: map<nat, seq<bool>>)
    requires sm.Inv(live, lo, hi, committed, kept)
    ensures forall b :: b in CurrentBlocks(sm) ==> sm.InIp(b)
  {
    hide Sm.Inv;
    CurrentSpared(sm, live, lo, hi, committed, kept);
  }

  lemma ReleaseKeeps(fs: Fs, b: nat)
    requires Shape(fs) && FsInv(fs) && fs.phase == Open && b in fs.now.live && !fs.IsFixed(b)
    ensures FsInv(Released(fs, b))
  {
    hide Inv, Sm.Inv, LastOk, CurrentBlocks, Copies, Sm.OwnBlocks, TransOk, CopiesOn, Sm.QueueInsert;
    var fs2 := Released(fs, b);
    ReleaseSpace(fs, b);
    assert fs2.Cache() == fs.Cache() + map[];
    assert Inv(fs.geo, fs.st) by { LastInv(fs); }
    SameLastOk(fs, fs2);
    TransAfter(fs, map[], fs2);
    OwnInPool(fs.now.sm, fs.now.live, 0, 0, fs.Committed(), fs.last.sm.disk);
    CopiesSame(fs, fs2, map[]);
  }

  // Changes in place

  /** The test of the transaction id is right: an object with the current one was written by
      this transaction, in a block that the last checkpoint does not use. */
  lemma InPlaceIff(fs: Fs, b: nat)
    requires Shape(fs) && FsInv(fs) && fs.phase == Open && IsObject(fs, b)
    ensures InPlace(fs, b) <==> b in fs.trans
    ensures InPlace(fs, b) ==> Outside(fs.geo, b) && b !in fs.st.used
  {
    hide Inv, Sm.Inv, Copies, Sm.OwnBlocks, CopiesOn, BitmapsOn;
    if b in fs.trans {
      SpareBlock(fs, b);
    } else {
      SavedCache(fs, b);
    }
  }

  /** What the last checkpoint uses has not been written. */
  lemma SavedCache(fs: Fs, b: nat)
    requires Shape(fs) && LastOk(fs) && b in fs.st.used
    ensures b !in fs.st.dirty && b in fs.Cache() && b in fs.st.image && fs.Cache()[b] == fs.st.image[b]
  {
    hide Sm.Inv, BitmapsOn, Layout, Latest, SbOk, RingBlocks;
    assert b in Reach(fs.geo, fs.st);
  }

  lemma ChangeEnabled(fs: Fs, b: nat, block: Block)
    requires Shape(fs) && FsInv(fs) && fs.phase == Open && b in fs.trans
    ensures Enabled(fs.geo, fs.st, WriteBlocks(map[b := block]))
  {
    hide Inv, Sm.Inv, LastOk, CurrentBlocks, Copies, Sm.OwnBlocks, CopiesOn;
    SpareBlock(fs, b);
  }

  lemma ChangeKeeps(fs: Fs, b: nat, block: Block, w: Disk)
    requires Shape(fs) && FsInv(fs) && fs.phase == Open && b in fs.trans &&
      (block.Object? ==> block.xid == fs.now.sm.xid)
    requires w == map[b := block]
    ensures FsInv(Wrote(fs, w))
  {
    hide Inv, Sm.Inv, LastOk, CurrentBlocks, Copies, Sm.OwnBlocks, CopiesOn, Enabled;
    var fs2 := Wrote(fs, w);
    ChangeEnabled(fs, b, block);
    WroteLast(fs, w, fs2);
    TransAfter(fs, w, fs2);
    OwnInPool(fs.now.sm, fs.now.live, 0, 0, fs.Committed(), fs.last.sm.disk);
    CopiesSame(fs, fs2, w);
  }

  // The start

  lemma BeginEnabled(fs: Fs, op: Op)
    requires Shape(fs) && FsInv(fs) && op.Begin? && Can(fs, op)
    ensures Enabled(fs.geo, fs.st, StepOf(fs, op))
  {
    hide Inv, Sm.Inv, LastOk, CurrentBlocks, Copies, Sm.OwnBlocks, Outside;
    assert FixedLive(fs, fs.last.live) by { LastFixed(fs); }
    forall x | x in SpaceWrites(op.sm, op.cibs)
      ensures Outside(fs.geo, x) && x !in fs.st.used
    {
      SpareCopy(fs, op.sm, fs.last.live, op.lo, op.hi, x);
    }
  }

  lemma LastFixed(fs: Fs)
    requires Shape(fs) && LastOk(fs)
    ensures FixedLive(fs, fs.last.live)
  {
  }

  lemma BeginKeeps(fs: Fs, op: Op)
    requires Shape(fs) && FsInv(fs) && op.Begin? && Can(fs, op)
    ensures FsInv(Next(fs, op))
  {
    hide Inv, Sm.Inv, LastOk, CurrentBlocks, Copies, Sm.OwnBlocks, Enabled, CopiesOn;
    var fs2, w := Next(fs, op), SpaceWrites(op.sm, op.cibs);
    BeginEnabled(fs, op);
    WroteLast(fs, w, fs2);
    if op.ok {
      LastFixed(fs);
      InvShape(op.sm, fs.last.live, 0, 0, fs.Committed(), fs.last.sm.disk);
      CopiesAfter(fs2, fs.Cache(), op.cibs, w);
    }
  }

  // The end

  lemma RotateEnabled(fs: Fs, op: Op)
    requires Shape(fs) && FsInv(fs) && op.Rotate? && Can(fs, op)
    ensures R.Partition(op.queue, op.slots, fs.ipBlocks) && |op.queue| == |fs.now.queue| && |op.slots| == |fs.now.slots|
    ensures Enabled(fs.geo, fs.st, StepOf(fs, op))
  {
    hide Inv, Sm.Inv, Copies, Sm.OwnBlocks, R.Rotated, TransOk, CopiesOn, R.Partition, Outside, BitmapsOn, Dated;
    LastFree(fs);
    R.RotatedPartition(fs.now.queue, fs.now.slots, op.dirty, op.queue, op.slots, fs.ipBlocks);
    forall x | x in StepOf(fs, op).blocks
      ensures Outside(fs.geo, x) && x !in fs.st.used
    {
      var i :| 0 <= i < |op.slots| && i < |op.dirty| && op.dirty[i] && fs.ipBm + op.slots[i] == x;
      SpareLocation(fs, op.dirty, op.slots, op.queue, i);
    }
  }

  lemma LastFree(fs: Fs)
    requires Shape(fs) && LastOk(fs)
    ensures R.Partition(fs.last.queue, fs.last.slots, fs.ipBlocks) && |fs.last.slots| <= |fs.last.queue|
    ensures fs.last.slots != [] ==> fs.last.queue != []
  {
  }

  lemma FlushSpace(fs: Fs)
    requires SpaceOk(fs) && fs.now.sm.xid > 0
    ensures var sm := fs.now.sm.FlushCache();
      && sm.Inv(fs.now.live, 0, 0, fs.Committed(), fs.last.sm.disk) && sm.cacheBase == 0
      && Copies(fs.last.sm.(xid := sm.xid), sm) && SamePool(fs.now.sm, sm)
      && sm == sm.(chunks := fs.now.sm.chunks, cibs := fs.now.sm.cibs, disk := fs.now.sm.disk)
  {
    hide Sm.Owned, Sm.Counted, Sm.Protects, Sm.Dated, Sm.PoolReserved, Copies, Sm.Enqueue;
    var sm := fs.now.sm;
    FlushCacheKeeps(sm, fs.now.live, fs.Committed(), fs.last.sm.disk);
    MemoryCopies(sm, sm.FlushCache());
    CopiesThen(fs.last.sm.(xid := sm.xid), sm, sm.FlushCache());
  }

  lemma RotateKeeps(fs: Fs, op: Op)
    requires Shape(fs) && FsInv(fs) && op.Rotate? && Can(fs, op)
    ensures FsInv(Next(fs, op))
  {
    hide Inv, Sm.Inv, LastOk, CurrentBlocks, Copies, Sm.OwnBlocks, Enabled, CopiesOn, TransOk, Sm.FlushCache,
      R.Partition, R.Rotated;
    var fs2, w := Next(fs, op), StepOf(fs, op).blocks;
    RotateEnabled(fs, op);
    FlushSpace(fs);
    WroteLast(fs, w, fs2);
    forall x | x in w
      ensures fs.IsFixed(x) && !fs.now.sm.InIp(x)
    {
      var i :| 0 <= i < |op.slots| && i < |op.dirty| && op.dirty[i] && fs.ipBm + op.slots[i] == x;
      LocationsFixed(fs, op.queue, op.slots, x);
      PoolApart(fs.now.sm, fs.now.live, 0, 0, fs.Committed(), fs.last.sm.disk, x);
    }
    TransAfter(fs, w, fs2);
    OwnInPool(fs.now.sm, fs.now.live, 0, 0, fs.Committed(), fs.last.sm.disk);
    CopiesSame(fs, fs2, w);
    RotatedCache(fs, op);
  }

  lemma RotatedCache(fs: Fs, op: Op)
    requires Shape(fs) && FsInv(fs) && op.Rotate? && Can(fs, op) && |op.slots| == |fs.now.slots|
    ensures forall b :: b in fs.Locations(op.slots) ==> b in fs.Cache() + StepOf(fs, op).blocks
  {
    hide Inv, Sm.Inv, LastOk, Copies, Sm.OwnBlocks, CopiesOn, TransOk, R.Rotated;
    forall b | b in fs.Locations(op.slots)
      ensures b in fs.Cache() + StepOf(fs, op).blocks
    {
      var i :| 0 <= i < |op.slots| && fs.ipBm + op.slots[i] == b;
      if !op.dirty[i] {
        R.NotMoved(fs.now.queue, fs.now.slots, op.dirty, op.queue, op.slots, i);
        assert b in fs.Locations(fs.last.slots);
        assert b in fs.st.used by { LastUsed(fs); }
        SavedCache(fs, b);
      }
    }
  }

  lemma LastUsed(fs: Fs)
    requires Shape(fs) && LastOk(fs)
    ensures fs.st.used == fs.UsedBy(fs.last)
  {
  }

  lemma ObjectsEnabled(fs: Fs, op: Op)
    requires Shape(fs) && FsInv(fs) && op.WriteObjects? && Can(fs, op)
    ensures Enabled(fs.geo, fs.st, StepOf(fs, op))
  {
    hide Inv, Sm.Inv, Copies, Sm.OwnBlocks, CopiesOn, TransOk, Layout, Touched, HitsLimit, JumpsLimit, CpmCount, Stream,
      BitmapsOn, R.Partition, LocationsOk, DescRange, DataRange;
  }

  /** The checkpoint is written to the rings, which hold nothing of the transaction. */
  lemma ObjectsKeep(fs: Fs, op: Op)
    requires Shape(fs) && FsInv(fs) && op.WriteObjects? && Can(fs, op)
    ensures FsInv(Next(fs, op))
  {
    hide Inv, Sm.Inv, LastOk, Copies, Sm.OwnBlocks, CopiesOn, TransOk, Layout, Touched, HitsLimit, JumpsLimit,
      CpmCount, Stream,
      R.Partition, LocationsOk, Enabled, DescRange, DataRange, SpaceOk;
    var fs2 := Next(fs, op);
    ObjectsEnabled(fs, op);
    LastInv(fs);
    WriteCheckpointKeeps(fs.geo, fs.st, op.bufs, op.next, op.list);
    SameLastOk(fs, fs2);
    RingWrites(fs, op);
    SameOutside(fs, fs2);
  }

  /** Only the rings have changed. */
  ghost predicate RingsOnly(fs: Fs, fs2: Fs) {
    forall b: nat :: !fs.geo.InDesc(b) && !fs.geo.InData(b) ==>
      (b in fs2.Cache() <==> b in fs.Cache()) && (b in fs.Cache() ==> fs2.Cache()[b] == fs.Cache()[b])
  }

  lemma RingWrites(fs: Fs, op: Op)
    requires Shape(fs) && op.WriteObjects? && Can(fs, op)
    ensures RingsOnly(fs, Next(fs, op))
  {
    hide Layout, HitsLimit, JumpsLimit, CpmCount, Stream, Sm.Inv, Inv;
    var blocks := LayoutBlocks(fs.geo, op.next);
    forall b: nat | !fs.geo.InDesc(b) && !fs.geo.InData(b)
      ensures (b in op.bufs <==> b in fs.st.dirty) && (b in op.bufs ==> op.bufs[b] == fs.st.dirty[b])
    {
      assert b !in blocks;
      assert (b in op.bufs <==> b in op.bufs - blocks) && (b in fs.st.dirty <==> b in fs.st.dirty - blocks);
    }
  }

  /** The running transaction does not depend on the rings. */
  lemma SameOutside(fs: Fs, fs2: Fs)
    requires Shape(fs) && Running(fs) && LocationsOk(fs) && SameLast(fs, fs2) && RingsOnly(fs, fs2)
    requires fs2.now == fs.now && fs2.trans == fs.trans
    ensures Running(fs2) && LocationsOk(fs2)
  {
    hide Sm.Inv, Copies, Sm.OwnBlocks, R.Partition;
    OwnInPool(fs.now.sm, fs.now.live, 0, 0, fs.Committed(), fs.last.sm.disk);
    forall b | b in CurrentBlocks(fs.now.sm)
      ensures !fs.IsFixed(b)
    {
      if fs.IsFixed(b) { PoolApart(fs.now.sm, fs.now.live, 0, 0, fs.Committed(), fs.last.sm.disk, b); }
    }
    CopiesOutside(fs, fs2);
    forall b | b in fs.Locations(fs.now.slots)
      ensures b in fs2.Cache()
    {
      LocationsOutside(fs, b);
    }
  }

  lemma CopiesOutside(fs: Fs, fs2: Fs)
    requires CopiesOn(fs) && RingsOnly(fs, fs2) && fs2.now == fs.now
    requires forall b :: b in CurrentBlocks(fs.now.sm) ==> !fs.IsFixed(b)
    ensures CopiesOn(fs2)
  {
    var sm := fs.now.sm;
    forall i | 0 <= i < |sm.chunks| && CurrentChunk(sm, i)
      ensures BitmapOn(fs2.Cache(), sm, i)
    {
      assert BitmapOn(fs.Cache(), sm, i) && sm.chunks[i].bmap in CurrentBitmaps(sm);
      assert sm.chunks[i].bmap in CurrentBlocks(sm);
    }
  }

  lemma LocationsOutside(fs: Fs, b: nat)
    requires Shape(fs) && R.Partition(fs.now.queue, fs.now.slots, fs.ipBlocks) && b in fs.Locations(fs.now.slots)
    ensures Outside(fs.geo, b)
  {
    var i :| 0 <= i < |fs.now.slots| && fs.ipBm + fs.now.slots[i] == b;
    assert (fs.now.queue + fs.now.slots)[|fs.now.queue| + i] == fs.now.slots[i];
  }

  /** Nothing was written that was not already in the cache. */
  lemma SameCache(fs: Fs, fs2: Fs)
    requires Shape(fs) && PhaseOk(fs) && SameLast(fs, fs2) && fs2.Cache() == fs.Cache()
    requires fs2.now == fs.now && fs2.trans == fs.trans && fs2.phase == fs.phase && fs2.st.ready == fs.st.ready
    requires fs2.st.next == fs.st.next && (fs.st.dirty == map[] ==> fs2.st.dirty == map[])
    ensures PhaseOk(fs2)
  {
    hide Sm.Inv, Copies, Sm.OwnBlocks, R.Partition, CurrentBlocks;
  }

  lemma LandKeeps(fs: Fs, b: nat)
    requires Shape(fs) && FsInv(fs) && b in fs.st.dirty
    ensures Enabled(fs.geo, fs.st, Persist(b)) && FsInv(fs.(st := Apply(fs.geo, fs.st, Persist(b))))
  {
    hide Inv, LastOk, PhaseOk;
    var fs2 := fs.(st := Apply(fs.geo, fs.st, Persist(b)));
    LastInv(fs);
    PersistKeeps(fs.geo, fs.st, Persist(b));
    SameLastOk(fs, fs2);
    assert fs2.Cache() == fs.Cache();
    SameCache(fs, fs2);
  }

  lemma WaitKeeps(fs: Fs)
    requires Shape(fs) && FsInv(fs) && fs.phase == Written
    ensures Enabled(fs.geo, fs.st, Sync) && FsInv(fs.(st := Apply(fs.geo, fs.st, Sync), phase := Synced))
  {
    hide Inv, LastOk, Running, LocationsOk;
    var fs2 := fs.(st := Apply(fs.geo, fs.st, Sync), phase := Synced);
    LastInv(fs);
    PersistKeeps(fs.geo, fs.st, Sync);
    SameLastOk(fs, fs2);
    assert fs2.Cache() == fs.Cache();
    SameOutside(fs, fs2);
  }

  lemma TearKeeps(fs: Fs)
    requires Shape(fs) && FsInv(fs) && fs.phase == Synced
    ensures Enabled(fs.geo, fs.st, TearSuper) && FsInv(fs.(st := Apply(fs.geo, fs.st, TearSuper)))
  {
    hide Inv, LastOk, Running, LocationsOk;
    var fs2 := fs.(st := Apply(fs.geo, fs.st, TearSuper));
    LastInv(fs);
    TearSuperKeeps(fs.geo, fs.st);
    SameLastOk(fs, fs2);
    SameOutside(fs, fs2);
  }

  /** All that the new checkpoint uses is on disk. */
  lemma UsedOnDisk(fs: Fs, b: nat)
    requires Shape(fs) && FsInv(fs) && fs.phase == Synced && b in fs.UsedBy(fs.now)
    ensures Outside(fs.geo, b) && b in fs.st.disk
  {
    hide Inv, Sm.Inv, Copies, R.Partition, BitmapsOn, Dated, CurrentBlocks, Sm.OwnBlocks;
    assert fs.Cache() == fs.st.disk;
    if b in fs.Locations(fs.now.slots) {
      LocationsOutside(fs, b);
    } else if b in fs.now.sm.OwnBlocks() {
      OwnOnDisk(fs, b);
    } else if b !in fs.trans {
      SavedCache(fs, b);
    }
  }

  lemma OwnOnDisk(fs: Fs, b: nat)
    requires Shape(fs) && LastOk(fs) && Running(fs) && b in fs.now.sm.OwnBlocks()
    ensures Outside(fs.geo, b) && b in fs.Cache()
  {
    hide Inv, Sm.Inv, Copies, R.Partition, BitmapsOn, Dated, CurrentBlocks, Sm.OwnBlocks;
    CurrentSpared(fs.now.sm, fs.now.live, 0, 0, fs.Committed(), fs.last.sm.disk);
    if fs.IsFixed(b) { PoolApart(fs.now.sm, fs.now.live, 0, 0, fs.Committed(), fs.last.sm.disk, b); }
    OwnCopied(fs.last.sm.(xid := fs.now.sm.xid), fs.now.sm);
    if b !in CurrentBlocks(fs.now.sm) {
      assert b in fs.last.sm.OwnBlocks() by { SameOwn(fs.last.sm, fs.now.sm.xid); }
      SavedCache(fs, b);
    }
  }

  lemma SameOwn(sm: Sm, xid: nat)
    ensures sm.(xid := xid).OwnBlocks() == sm.OwnBlocks()
  {
  }

  /** The bitmaps that were not copied are those of the last checkpoint. */
  lemma BitmapsNow(fs: Fs)
    requires Shape(fs) && LastOk(fs) && Running(fs)
    ensures BitmapsOn(fs.Cache(), fs.now.sm)
  {
    hide Inv, Sm.Inv, R.Partition, Dated, CurrentBlocks, Sm.OwnBlocks;
    var sm := fs.now.sm;
    forall i | 0 <= i < |sm.chunks| && sm.chunks[i].bmap != 0
      ensures BitmapOn(fs.Cache(), sm, i)
    {
      if !CurrentChunk(sm, i) { OldBitmapOn(fs, i); }
    }
  }

  lemma OldBitmapOn(fs: Fs, i: nat)
    requires Shape(fs) && LastOk(fs) && Running(fs) && i < |fs.now.sm.chunks|
    requires fs.now.sm.chunks[i].bmap != 0 && !CurrentChunk(fs.now.sm, i)
    ensures BitmapOn(fs.Cache(), fs.now.sm, i)
  {
    hide Inv, Sm.Counted, Sm.Owned, Sm.Dated, Sm.PoolReserved, R.Partition, Dated, CurrentBlocks;
    var sm, b := fs.now.sm, fs.now.sm.chunks[i].bmap;
    assert ChunkCopied(fs.last.sm.(xid := sm.xid), sm, i);
    assert fs.last.sm.chunks[i].bmap == b;
    assert BitmapOn(fs.st.image, fs.last.sm, i);
    assert b in fs.last.sm.OwnBlocks();
    SavedCache(fs, b);
  }

  /** No object is newer than the transaction that is about to be committed. */
  lemma DatedNow(fs: Fs)
    requires Shape(fs) && LastOk(fs) && Running(fs)
    ensures Dated(fs, fs.Cache(), fs.now)
  {
    hide Inv, Sm.Inv, R.Partition, BitmapsOn, Copies, CopiesOn, Sm.OwnBlocks;
    forall b | b in fs.now.live && !fs.IsFixed(b) && b in fs.Cache() && fs.Cache()[b].Object?
      ensures fs.Cache()[b].xid <= fs.now.sm.xid
    {
      if b !in fs.trans { SavedCache(fs, b); }
    }
  }

  lemma NothingCommitted(sm: Sm, live: set<nat>, committed: set<nat>, kept: map<nat, seq<bool>>)
    requires sm.Inv(live, 0, 0, committed, kept)
    ensures sm.Inv(live, 0, 0, {}, map[])
  {
    hide Sm.Counted, Sm.Owned, Sm.PoolReserved, Sm.Dated;
  }

  lemma FinishEnabled(fs: Fs)
    requires Shape(fs) && FsInv(fs) && fs.phase == Synced
    ensures Enabled(fs.geo, fs.st, CommitSuper(fs.UsedBy(fs.now))) && fs.st.next.descLen > 0
  {
    hide Inv, LastOk, Running, LocationsOk, Fs.UsedBy, Outside;
    forall b | b in fs.UsedBy(fs.now)
      ensures Outside(fs.geo, b) && b in fs.st.disk
    {
      UsedOnDisk(fs, b);
    }
    LastInv(fs);
    ReadyLen(fs.geo, fs.st, CommitSuper(fs.UsedBy(fs.now)));
  }

  /** The commit: the current state becomes that of the last checkpoint. */
  lemma FinishKeeps(fs: Fs)
    requires Shape(fs) && FsInv(fs) && fs.phase == Synced
    ensures FsInv(Finished(fs))
  {
    hide Inv, Sm.Inv, Copies, R.Partition, Enabled, Fs.UsedBy, TransOk, CopiesOn, LocationsOk;
    var fs2 := Finished(fs);
    FinishEnabled(fs);
    assert Shape(fs2);
    CommitSuperKeeps(fs.geo, fs.st, fs.UsedBy(fs.now));
    assert fs.Cache() == fs.st.disk;
    FinishSaved(fs);
    FinishContents(fs);
    assert fs2.UsedBy(fs.now) == fs.UsedBy(fs.now) by { SameUsedBy(fs, fs2, fs.now); }
  }

  lemma SameUsedBy(fs: Fs, fs2: Fs, sv: Saved)
    requires fs2.geo == fs.geo && fs2.ipBm == fs.ipBm && fs2.ipBlocks == fs.ipBlocks
    ensures fs2.UsedBy(sv) == fs.UsedBy(sv)
  {
    hide Sm.OwnBlocks;
  }

  lemma FinishSaved(fs: Fs)
    requires Shape(fs) && FsInv(fs) && fs.phase == Synced
    ensures SavedOk(Finished(fs), fs.now)
  {
    hide Inv, Sm.Inv, Copies, R.Partition, TransOk, CopiesOn;
    NothingCommitted(fs.now.sm, fs.now.live, fs.Committed(), fs.last.sm.disk);
  }

  lemma FinishContents(fs: Fs)
    requires Shape(fs) && FsInv(fs) && fs.phase == Synced
    ensures var fs2 := Finished(fs);
      Dated(fs2, fs2.st.image, fs.now) && BitmapsOn(fs2.st.image, fs.now.sm)
  {
    hide Inv, Sm.Inv, Copies, R.Partition, LastOk, Running, LocationsOk;
    var fs2 := Finished(fs);
    FinishEnabled(fs);
    DatedNow(fs);
    BitmapsNow(fs);
    assert fs.Cache() == fs.st.disk;
    forall i | 0 <= i < |fs.now.sm.chunks| && fs.now.sm.chunks[i].bmap != 0
      ensures BitmapOn(fs2.st.image, fs.now.sm, i)
    {
      assert BitmapOn(fs.Cache(), fs.now.sm, i);
      assert fs.now.sm.chunks[i].bmap in fs.now.sm.OwnBlocks();
      OwnOnDisk(fs, fs.now.sm.chunks[i].bmap);
    }
  }

  lemma CopyKeeps(fs: Fs)
    requires Shape(fs) && FsInv(fs) && fs.phase == Closed
    ensures FsInv(fs.(st := Apply(fs.geo, fs.st, CopySuper)))
  {
    hide Inv, LastOk;
    LastInv(fs);
    CopySuperKeeps(fs.geo, fs.st);
    SameLastOk(fs, fs.(st := Apply(fs.geo, fs.st, CopySuper)));
  }

  lemma AbortKeeps(fs: Fs)
    requires Shape(fs) && FsInv(fs)
    ensures FsInv(fs.(phase := Aborted))
  {
    hide Inv, LastOk, Running, LocationsOk;
    LastInv(fs);
    SameLastOk(fs, fs.(phase := Aborted));
  }

  /** After a crash, the container is that of the last checkpoint. */
  lemma CrashKeeps(fs: Fs, landed: set<nat>)
    requires Shape(fs) && FsInv(fs)
    ensures FsInv(AfterCrash(fs, landed))
  {
    hide Inv, LastOk, Running, LocationsOk;
    var fs2 := AfterCrash(fs, landed);
    LastInv(fs);
    CrashedInv(fs.geo, fs.st, landed);
    SameLastOk(fs, fs2);
  }

  lemma CrashedInv(geo: Geometry, st: State, landed: set<nat>)
    requires geo.Valid() && Inv(geo, st)
    ensures Inv(geo, Crashed(st, landed))
  {
    hide Layout, SbOk, DescRange, DataRange;
    LandedLatest(geo, st, landed);
    assert Reach(geo, Crashed(st, landed)) == Reach(geo, st);
  }

  lemma ReadKeeps(fs: Fs, op: Op)
    requires Shape(fs) && FsInv(fs) && op.ReadForWrite? && Can(fs, op)
    ensures Enabled(fs.geo, fs.st, StepOf(fs, op)) && FsInv(Next(fs, op))
  {
    hide Inv, LastOk, Running, LocationsOk, Sm.Shape, Sm.QueueInsert, Apply, TakeWrites, Sm.Alloc, PhaseOk, Enabled;
    if NeedsCopy(fs, op.bno) {
      var copy := CopyOf(fs, op.bno);
      TakeEnabled(fs, op.i, copy, op.cibs);
      TakeKeeps(fs, op.i, copy, op.cibs);
      var fs2 := Took(fs, fs.(st := Apply(fs.geo, fs.st, WriteBlocks(TakeWrites(fs, op.i, copy, op.cibs)))), op.i);
      ReleaseKeeps(fs2, op.bno);
    } else {
      NoWrites(fs);
    }
  }

  lemma NoWrites(fs: Fs)
    requires Shape(fs)
    ensures Enabled(fs.geo, fs.st, WriteBlocks(map[])) && fs.(st := Apply(fs.geo, fs.st, WriteBlocks(map[]))) == fs
  {
    assert fs.st.dirty + map[] == fs.st.dirty;
  }

  lemma WriteOpKeeps(fs: Fs, op: Op)
    requires Shape(fs) && FsInv(fs) && Can(fs, op) && (op.Take? || op.Change? || op.ChangeData? || op.Release?)
    ensures Enabled(fs.geo, fs.st, StepOf(fs, op)) && FsInv(Next(fs, op))
  {
    hide Inv, LastOk, Running, LocationsOk, Sm.Shape, Sm.QueueInsert, Apply, TakeWrites, Sm.Alloc, PhaseOk, Enabled,
      FirstFree;
    match op
    case Take(i, block, cibs) =>
      TakeEnabled(fs, i, block, cibs);
      TakeKeeps(fs, i, block, cibs);
    case Change(b, payload) =>
      InPlaceIff(fs, b);
      ChangeEnabled(fs, b, Object(fs.now.sm.xid, payload));
      ChangeKeeps(fs, b, Object(fs.now.sm.xid, payload), map[b := Object(fs.now.sm.xid, payload)]);
    case ChangeData(b, bytes) =>
      ChangeEnabled(fs, b, Data(bytes));
      ChangeKeeps(fs, b, Data(bytes), map[b := Data(bytes)]);
    case Release(b) =>
      NoWrites(fs);
      ReleaseKeeps(fs, b);
  }

  lemma CommitOpKeeps(fs: Fs, op: Op)
    requires Shape(fs) && FsInv(fs) && Can(fs, op) &&
      (op.Rotate? || op.WriteObjects? || op.Wait? || op.Tear? || op.Finish?)
    ensures Enabled(fs.geo, fs.st, StepOf(fs, op)) && FsInv(Next(fs, op))
  {
    hide Inv, LastOk, Running, LocationsOk, PhaseOk, Enabled, Apply, Sm.FlushCache;
    match op
    case Rotate(_, _, _, _) =>
      RotateEnabled(fs, op);
      RotateKeeps(fs, op);
    case WriteObjects(_, _, _) =>
      ObjectsEnabled(fs, op);
      ObjectsKeep(fs, op);
    case Wait => WaitKeeps(fs);
    case Tear => TearKeeps(fs);
    case Finish =>
      FinishEnabled(fs);
      FinishKeeps(fs);
  }

  lemma OtherOpKeeps(fs: Fs, op: Op)
    requires Shape(fs) && FsInv(fs) && Can(fs, op) && (op.CopyToZero? || op.Land? || op.Abort? || op.Crash?)
    ensures Enabled(fs.geo, fs.st, StepOf(fs, op)) && FsInv(Next(fs, op))
  {
    hide Inv, LastOk, Running, LocationsOk, PhaseOk, Apply;
    match op
    case CopyToZero => CopyKeeps(fs);
    case Land(b) => LandKeeps(fs, b);
    case Abort =>
      NoWrites(fs);
      AbortKeeps(fs);
    case Crash(landed) =>
      NoWrites(fs);
      CrashKeeps(fs, landed);
  }

  /** Every write of every operation is one that the disk protocol allows, and the container
      stays consistent. */
  lemma OpKeeps(fs: Fs, op: Op)
    requires Shape(fs) && FsInv(fs) && Can(fs, op)
    ensures Enabled(fs.geo, fs.st, StepOf(fs, op)) && FsInv(Next(fs, op))
  {
    hide FsInv, Can, Next, StepOf, Enabled, Shape;
    assert Shape(fs) by { InvIsShape(fs); }
    match op
    case Begin(_, _, _, _, _) =>
      BeginEnabled(fs, op);
      BeginKeeps(fs, op);
    case ReadForWrite(_, _, _, _) => ReadKeeps(fs, op);
    case Take(_, _, _) => WriteOpKeeps(fs, op);
    case Change(_, _) => WriteOpKeeps(fs, op);
    case ChangeData(_, _) => WriteOpKeeps(fs, op);
    case Release(_) => WriteOpKeeps(fs, op);
    case CopyToZero => OtherOpKeeps(fs, op);
    case Land(_) => OtherOpKeeps(fs, op);
    case Abort => OtherOpKeeps(fs, op);
    case Crash(_) => OtherOpKeeps(fs, op);
    case _ => CommitOpKeeps(fs, op);
  }

  lemma InvIsShape(fs: Fs)
    requires FsInv(fs)
    ensures Shape(fs)
  {
  }
}
