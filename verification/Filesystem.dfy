/** The in-memory container and the operations of a transaction (transaction.c, object.c),
    proved to be histories of the model in Transactions. */
module Filesystems {
  import opened Bitmaps
  import opened Checkpoints
  import opened Crashes
  import S = Spaceman
  import opened SpaceCopies
  import opened SpaceManagers
  import opened Transactions
  import opened TransactionSteps
  import opened TransactionRuns
  import R = IpBitmaps

  /** The object is in a block of its own, which the transaction may change. */
  ghost predicate Writable(fs: Fs, at: nat, payload: Bytes)
    requires Shape(fs)
  {
    && IsObject(fs, at) && InPlace(fs, at) && fs.Cache()[at].payload == payload
    && Outside(fs.geo, at) && at !in fs.st.used
  }

  /** What a read for write gives: the block where the object is now. */
  ghost predicate ReadAt(fs: Fs, op: Op, fs2: Fs, bno: nat, preserve: bool, at: nat) {
    && op.ReadForWrite? && op.bno == bno && op.preserve == preserve
    && Shape(fs) && Can(fs, op) && fs2 == Next(fs, op) && Shape(fs2)
    && Writable(fs2, at, fs.Cache()[bno].payload) && (at == bno <==> InPlace(fs, bno))
    && (bno in fs2.now.live <==> at == bno || preserve)
  }

  /** What an operation changes in memory. */
  ghost predicate Changes(fs: Fs, fs2: Fs, sm: S.Sm, w: Disk) {
    && fs2 == fs.(now := fs2.now, trans := fs2.trans, st := fs.st.(dirty := fs.st.dirty + w))
    && fs2.now == fs.now.(sm := sm, live := fs2.now.live)
  }

  /** An object of this transaction is left where it is. */
  lemma ReadInPlace(fs: Fs, bno: nat, preserve: bool, cibs: nat -> Block)
    requires Shape(fs) && FsInv(fs) && fs.phase == Open && fs.now.sm.Shape() && IsObject(fs, bno) && InPlace(fs, bno)
    ensures var op := ReadForWrite(bno, preserve, 0, cibs);
      ReadAt(fs, op, fs, bno, preserve, bno)
  {
    hide FsInv, Shape;
    NoWrites(fs);
    InPlaceIff(fs, bno);
  }

  /** Any other is copied. */
  lemma ReadCopied(fs: Fs, bno: nat, preserve: bool, i: nat, cibs: nat -> Block)
    requires Shape(fs) && FsInv(fs) && fs.phase == Open && fs.now.sm.Shape() && HasFree(fs.now.sm, i)
    requires IsObject(fs, bno) && !InPlace(fs, bno)
    ensures var op, at, sm := ReadForWrite(bno, preserve, i, cibs), FirstFree(fs.now.sm, i), fs.now.sm.Alloc(i);
      && Can(fs, op) && Shape(Next(fs, op)) && FsInv(Next(fs, op)) && ReadAt(fs, op, Next(fs, op), bno, preserve, at)
      && Changes(fs, Next(fs, op), if preserve then sm else sm.QueueInsert(bno, 1),
                 SpaceWrites(sm, cibs)[at := CopyOf(fs, bno)])
  {
    hide Inv, LastOk, S.Sm.Inv, S.Sm.Shape, S.Sm.QueueInsert, S.Sm.Alloc, Copies, TransOk, CopiesOn, FixedLive,
      FirstFree, SpaceWrites, FsInv;
    var op := ReadForWrite(bno, preserve, i, cibs);
    ReadKeeps(fs, op);
    CopyResult(fs, op);
  }

  lemma CopyResult(fs: Fs, op: Op)
    requires Shape(fs) && FsInv(fs) && op.ReadForWrite? && Can(fs, op) && !InPlace(fs, op.bno) && FsInv(Next(fs, op))
    ensures Shape(Next(fs, op))
    ensures var at := FirstFree(fs.now.sm, op.i);
      && Writable(Next(fs, op), at, fs.Cache()[op.bno].payload) && at != op.bno
      && (op.bno in Next(fs, op).now.live <==> op.preserve)
  {
    hide Inv, LastOk, S.Sm.Inv, S.Sm.Shape, S.Sm.QueueInsert, S.Sm.Alloc, Copies, TransOk, CopiesOn, FixedLive,
      FirstFree, SpaceWrites;
    var fs2, at := Next(fs, op), FirstFree(fs.now.sm, op.i);
    TakeSpace(fs, op.i);
    assert !fs.IsFixed(at) by { NotFixed(fs, at); }
    InPlaceIff(fs2, at);
  }

  lemma NotFixed(fs: Fs, b: nat)
    requires FixedLive(fs, fs.now.live) && b !in fs.now.live
    ensures !fs.IsFixed(b)
  {
  }

  class Filesystem {
    const geo: Geometry
    const ipBm: nat
    const sm: SpaceManager
    const ring: R.Ring
    const c: Container
    var disk: Disk
    ghost var fs: Fs

    /** A new container, right after it is mounted. */
    constructor (z: Sizes)
      requires z.Valid()
      ensures Valid() && fs == NewFs(z) && fresh(sm) && fresh(ring) && fresh(ring.next) && fresh(c)
    {
      hide FsInv, Shape, NewSm, NewDisk, NewLive, FirstBits, R.Ring.Valid;
      geo, ipBm := z.Geo(), z.IpBm();
      sm := new SpaceManager(NewSm(z));
      ring := new R.Ring(1, 2);
      c := new Container(z.Geo(), Sb(1, 0, 1, 1 % z.desc, 0, 0, 0));
      disk := NewDisk(z);
      fs := NewFs(z);
      new;
      NewContainer(z);
      InvIsShape(fs);
      assert ring.slots == [0] && ring.queue == [1];
    }

    /** The objects agree with the model. */
    ghost predicate Matches()
      reads this, sm, ring, ring.next, c
    {
      && sm.St() == fs.now.sm && ring.Valid() && ring.slots == fs.now.slots && ring.queue == fs.now.queue
      && ring.next.Length == fs.ipBlocks && c.geo == fs.geo == geo && fs.ipBm == ipBm
      && c.bufs == fs.st.dirty && disk == fs.st.disk && c.sb == (if fs.phase == Written then fs.st.next else fs.st.cp)
      && (fs.phase == Written ==> c.sb.descLen > 0 && fs.geo.Valid() && c.bno == SuperBno(fs.geo, c.sb))
    }

    /** The container is consistent. A transaction that fails can't go on. */
    ghost predicate Valid()
      reads this, sm, ring, ring.next, c
    {
      Shape(fs) && FsInv(fs) && (fs.phase != Aborted ==> Matches())
    }

    /** The contents of a block, from the cache if it was written. */
    function Read(b: nat): Block
      requires b in disk || b in c.bufs
      reads this, c
    {
      if b in c.bufs then c.bufs[b] else disk[b]
    }

    ghost method GiveUp()
      requires Shape(fs) && FsInv(fs)
      modifies this`fs
      ensures Valid() && fs == old(fs).(phase := Aborted)
    {
      hide FsInv;
      AbortKeeps(fs);
      fs := fs.(phase := Aborted);
    }

    /** apfs_spaceman_allocate_block(), with the buffers that it changes. */
    method Allocate(cibs: nat -> Block) returns (status: S.Status, b: nat, ghost i: nat)
      requires Valid() && fs.phase == Open
      modifies sm, c`bufs
      ensures status == S.Ok ==>
        && fs.now.sm.Shape() && HasFree(fs.now.sm, i) && b == FirstFree(fs.now.sm, i) && sm.St() == fs.now.sm.Alloc(i)
        && c.bufs == old(c.bufs) + SpaceWrites(sm.St(), cibs) && sm.xid == old(sm.xid)
    {
      hide S.Sm.Inv, S.Sm.Alloc, SpaceWrites, FirstFit, R.Ring.Valid, FsInv, Shape, HasFree, FirstFree, AllocatedIn,
        S.Sm.UsedBit;
      OpenSpace(fs);
      status, b := sm.AllocateBlock(true, fs.now.live, fs.Committed(), fs.last.sm.disk);
      i := 0;
      if status == S.Ok {
        i := fs.now.sm.ChunkOf(b);
        TookFrom(fs.now.sm, i, b, sm.St());
        c.bufs := c.bufs + SpaceWrites(sm.St(), cibs);
      }
    }

    /** The part of apfs_read_object_block() for an object of an older transaction. */
    method CopyObject(bno: nat, preserve: bool, cibs: nat -> Block) returns (status: S.Status, at: nat, ghost op: Op)
      requires Valid() && fs.phase == Open && IsObject(fs, bno) && !InPlace(fs, bno)
      modifies this`fs, sm, c`bufs
      ensures Valid() && (status != S.Ok ==> fs == old(fs).(phase := Aborted))
      ensures status == S.Ok ==> ReadAt(old(fs), op, fs, bno, preserve, at)
    {
      hide S.Sm.Alloc, S.Sm.Shape, SpaceWrites, R.Ring.Valid, FsInv, ReadAt, FirstFree, Can, Next, HasFree, Shape,
        S.Sm.QueueInsert;
      var payload := Read(bno).payload;
      op := Abort;
      ghost var i;
      status, at, i := Allocate(cibs);
      if status != S.Ok {
        GiveUp();
        return;
      }
      op := ReadForWrite(bno, preserve, i, cibs);
      ReadCopied(fs, bno, preserve, i, cibs);
      PutLast(fs.st.dirty, SpaceWrites(sm.St(), cibs), at, CopyOf(fs, bno));
      c.bufs := c.bufs[at := Object(sm.xid, payload)];
      if !preserve {
        sm.FreeQueueInsert(bno, 1);
      }
      fs := Next(fs, op);
    }

    /** apfs_read_object_block() with write access: an object of an older transaction is copied
        to a new block before it is changed. */
    method ReadObjectBlock(bno: nat, preserve: bool, cibs: nat -> Block)
      returns (status: S.Status, at: nat, ghost op: Op)
      requires Valid() && fs.phase == Open && IsObject(fs, bno)
      modifies this`fs, sm, c`bufs
      ensures Valid() && (status != S.Ok ==> fs == old(fs).(phase := Aborted))
      ensures status == S.Ok ==> ReadAt(old(fs), op, fs, bno, preserve, at)
    {
      hide R.Ring.Valid, FsInv, ReadAt, Shape, S.Sm.Inv;
      OpenSpace(fs);
      if Read(bno).xid == sm.xid {
        status, at, op := S.Ok, bno, ReadForWrite(bno, preserve, 0, cibs);
        ReadInPlace(fs, bno, preserve, cibs);
      } else {
        status, at, op := CopyObject(bno, preserve, cibs);
      }
    }

    /** A new block for some object or data. */
    method NewBlock(block: Block, cibs: nat -> Block) returns (status: S.Status, at: nat, ghost op: Op)
      requires Valid() && fs.phase == Open && (block.Data? || (block.Object? && block.xid == sm.xid))
      modifies this`fs, sm, c`bufs
      ensures Valid() && (status != S.Ok ==> fs == old(fs).(phase := Aborted))
      ensures status == S.Ok ==>
        op.Take? && Can(old(fs), op) && fs == Next(old(fs), op) && TookAt(old(fs), fs, at, block)
    {
      hide S.Sm.Alloc, S.Sm.Shape, SpaceWrites, R.Ring.Valid, FsInv, FirstFree, Can, Next, HasFree, Shape, TookAt;
      op := Abort;
      ghost var i;
      status, at, i := Allocate(cibs);
      if status != S.Ok {
        GiveUp();
        return;
      }
      op := Take(i, block, cibs);
      TakeDone(fs, i, block, cibs);
      PutLast(fs.st.dirty, SpaceWrites(sm.St(), cibs), at, block);
      c.bufs := c.bufs[at := block];
      fs := Next(fs, op);
    }

    /** A change to an object that was read for write. */
    method ChangeObject(b: nat, payload: Bytes, ghost was: Bytes)
      requires Valid() && fs.phase == Open && Writable(fs, b, was)
      modifies this`fs, c`bufs
      ensures Valid() && Can(old(fs), Change(b, payload)) && fs == Next(old(fs), Change(b, payload))
      ensures fs.Cache() == old(fs).Cache()[b := Object(sm.xid, payload)]
      ensures fs.now == old(fs).now && fs.last == old(fs).last
    {
      hide R.Ring.Valid, FsInv, Shape, Can, Next;
      ChangeDone(fs, b, payload);
      c.bufs := c.bufs[b := Object(sm.xid, payload)];
      fs := Next(fs, Change(b, payload));
    }

    /** The start of apfs_transaction_start(): the free queues are flushed. */
    method Begin(cibs: nat -> Block) returns (status: S.Status, ghost op: Op)
      requires Valid() && fs.phase == Closed
      modifies this`fs, sm, c`bufs
      ensures Valid() && op.Begin? && Can(old(fs), op) && fs == Next(old(fs), op)
      ensures fs.phase == if status == S.Ok then Open else Aborted
    {
      hide R.Ring.Valid, FsInv, Shape, S.Sm.Inv, Can, Next, Copies, SpaceWrites, S.Sm.UsedBit;
      ClosedSpace(fs);
      ghost var last;
      status, last := sm.StartTransaction(sm.xid + 1, fs.last.live, {}, map[]);
      op := Op.Begin(last.sm, last.lo, last.hi, status == S.Ok, cibs);
      BeginDone(fs, op);
      if status == S.Ok {
        c.bufs := c.bufs + SpaceWrites(sm.St(), cibs);
      }
      fs := Next(fs, op);
    }

    /** apfs_write_ip_bitmaps(), after the last update to the free queues. */
    method WriteIpBitmaps(dirty: seq<bool>, bitmaps: nat -> Block) returns (ghost op: Op)
      requires Valid() && fs.phase == Open && |dirty| == |ring.slots|
      modifies this`fs, sm, c`bufs, ring, ring.next
      ensures Valid() && op.Rotate? && Can(old(fs), op) && fs == Next(old(fs), op) && fs.phase == Rotated
    {
      hide R.Ring.Valid, FsInv, Shape, S.Sm.Inv, Can, Next, R.Rotated, S.Sm.FlushCache, RotateWrites;
      OpenSpace(fs);
      sm.CommitQueues(fs.now.live, fs.Committed(), fs.last.sm.disk);
      var ringStatus := ring.WriteIpBitmaps(dirty);
      op := Rotate(dirty, ring.slots, ring.queue, bitmaps);
      RotateDone(fs, op);
      c.bufs := c.bufs + RotateWrites(ipBm, ring.slots, dirty, bitmaps);
      fs := Next(fs, op);
    }

    /** apfs_write_ephemeral_objects(), which may find that there are too many. */
    method WriteObjects(list: seq<Eph>) returns (status: Status, ghost op: Op)
      requires Valid() && fs.phase == Rotated && SizesOk(list) && !JumpsLimit(geo, list)
      modifies this`fs, c
      ensures Valid() && (status == Corrupted <==>
        HitsLimit(geo, list) || CpmCount(|list|, geo.maxMaps) > geo.DescLimit())
      ensures status == Corrupted ==> fs == old(fs).(phase := Aborted)
      ensures status == Ok ==>
        op.WriteObjects? && op.list == list && Can(old(fs), op) && fs == Next(old(fs), op) && fs.phase == Written
    {
      hide R.Ring.Valid, FsInv, Shape, Can, Next, HitsLimit, JumpsLimit, SizesOk, CpmCount, Stream, Layout, Touched,
        DescRange, DataRange, NextSb;
      ShapeGeo(fs);
      NextLen(geo, fs.st.cp, list);
      op := Abort;
      c.list := list;
      status := c.WriteEphemeralObjects();
      if status != Ok {
        GiveUp();
        return;
      }
      QuarterLimit(geo, list);
      c.sb := c.sb.(xid := sm.xid);
      op := Op.WriteObjects(c.bufs, c.sb, list);
      ObjectsDone(fs, op);
      fs := Next(fs, op);
    }

    /** The rest of apfs_transaction_commit_nx(), and apfs_checkpoint_end(): everything is
        written and waited for, and then comes the superblock. */
    method EndCheckpoint()
      requires Valid() && fs.phase == Written
      modifies this, c
      ensures Valid() && fs.phase == Closed && fs.last == old(fs.now)
      ensures IsHistory(old(fs), [Wait, Tear, Finish]) && fs == After(old(fs), [Wait, Tear, Finish])
    {
      hide R.Ring.Valid, FsInv, Shape, IsHistory, After;
      EndDone(fs);
      ShapeGeo(fs);
      disk := disk + c.bufs;
      c.bufs := map[];
      disk := disk[c.bno := Super(c.sb)];
      fs := After(fs, [Wait, Tear, Finish]);
    }

    /** apfs_transaction_commit_nx(): a history that ends with the commit, or a failed one. */
    method Commit(list: seq<Eph>, dirty: seq<bool>, bitmaps: nat -> Block) returns (status: Status, ghost ops: seq<Op>)
      requires Valid() && fs.phase == Open && SizesOk(list) && !JumpsLimit(geo, list) && |dirty| == |ring.slots|
      modifies this, sm, c, ring, ring.next
      ensures Valid() && (status == Corrupted <==>
        HitsLimit(geo, list) || CpmCount(|list|, geo.maxMaps) > geo.DescLimit())
      ensures if status == Ok then fs.phase == Closed && Commits(old(fs), ops, fs)
        else fs.phase == Aborted && fs.last == old(fs.last)
    {
      hide R.Ring.Valid, FsInv, Shape, IsHistory, After, Can, Next, HitsLimit, JumpsLimit, SizesOk, CpmCount, Commits;
      ghost var op1, op2;
      ghost var fs0 := fs;
      op1 := WriteIpBitmaps(dirty, bitmaps);
      ghost var fs1 := fs;
      RotatedLast(fs0, op1);
      status, op2 := WriteObjects(list);
      ops := [];
      if status == Ok {
        ghost var fs2 := fs;
        EndCheckpoint();
        ops := [op1, op2] + [Wait, Tear, Finish];
        CommitIs(fs0, op1, fs1, op2, fs2, fs);
      }
    }

    /** A block is not needed any more. */
    method FreeBlock(b: nat)
      requires Valid() && fs.phase == Open && b in fs.now.live && !fs.IsFixed(b)
      modifies this`fs, sm
      ensures Valid() && Can(old(fs), Release(b)) && fs == Next(old(fs), Release(b))
      ensures fs.now.live == old(fs).now.live - {b} && fs.Cache() == old(fs).Cache() && fs.last == old(fs).last
    {
      hide R.Ring.Valid, FsInv, Shape, S.Sm.QueueInsert;
      WriteOpKeeps(fs, Release(b));
      NoWrites(fs);
      sm.FreeQueueInsert(b, 1);
      fs := Next(fs, Release(b));
      InvIsShape(fs);
    }
  }

  lemma ClosedSpace(fs: Fs)
    requires Shape(fs) && FsInv(fs) && fs.phase == Closed
    ensures fs.now == fs.last && fs.last.sm.Inv(fs.last.live, 0, 0, {}, map[]) && fs.last.sm.cacheBase == 0
  {
    hide Inv;
  }

  lemma BeginDone(fs: Fs, op: Op)
    requires Shape(fs) && FsInv(fs) && fs.phase == Closed && op.Begin?
    requires op.ok ==> op.lo == op.hi == 0
    requires Whole(op.sm, op.lo, op.hi).Since(fs.last.sm.(xid := fs.last.sm.xid + 1), fs.last.live, fs.Committed(),
      fs.last.sm.disk)
    ensures Can(fs, op) && Shape(Next(fs, op)) && FsInv(Next(fs, op))
    ensures Next(fs, op) == fs.(now := fs.last.(sm := op.sm), phase := if op.ok then Open else Aborted,
                                st := fs.st.(dirty := fs.st.dirty + SpaceWrites(op.sm, op.cibs)))
  {
    hide FsInv, Shape, S.Sm.Inv, Copies, SpaceWrites;
    SamePools(fs.last.sm.(xid := fs.last.sm.xid + 1), op.sm);
    OpKeeps(fs, op);
    InvIsShape(Next(fs, op));
  }

  /** The locations of the bitmaps of the pool that were written. */
  function RotateWrites(ipBm: nat, slots: seq<nat>, dirty: seq<bool>, bitmaps: nat -> Block): Disk {
    var changed := set i | 0 <= i < |slots| && i < |dirty| && dirty[i] :: ipBm + slots[i];
    map b | b in changed :: bitmaps(b)
  }

  lemma RotateDone(fs: Fs, op: Op)
    requires Shape(fs) && FsInv(fs) && fs.phase == Open && op.Rotate? && |op.dirty| == |fs.now.slots|
    requires R.Rotated(fs.now.queue, fs.now.slots, op.dirty, |op.dirty|, op.queue, op.slots)
    ensures Can(fs, op) && Shape(Next(fs, op)) && FsInv(Next(fs, op))
    ensures Next(fs, op) ==
      fs.(now := fs.now.(sm := fs.now.sm.FlushCache(), slots := op.slots, queue := op.queue), phase := Rotated,
          st := fs.st.(dirty := fs.st.dirty + RotateWrites(fs.ipBm, op.slots, op.dirty, op.bitmaps)))
  {
    hide FsInv, Shape, S.Sm.FlushCache, R.Rotated;
    OpKeeps(fs, op);
    InvIsShape(Next(fs, op));
  }

  /** A run of a transaction that ends with its commit, which saves its state. */
  ghost predicate Commits(fs: Fs, ops: seq<Op>, fs2: Fs) {
    && IsHistory(fs, ops) && fs2 == After(fs, ops) && |ops| == 5 && ops[4] == Finish
    && fs2.last.live == fs.now.live && fs2.st.cp.xid == fs.now.sm.xid
  }

  lemma RotatedLast(fs: Fs, op: Op)
    requires Shape(fs) && op.Rotate? && Can(fs, op)
    ensures var fs2 := Next(fs, op);
      fs2.last == fs.last && fs2.now.live == fs.now.live && fs2.now.sm.xid == fs.now.sm.xid
  {
  }

  lemma WrittenLast(fs: Fs, op: Op)
    requires Shape(fs) && op.WriteObjects? && Can(fs, op)
    ensures var fs2 := Next(fs, op); fs2.now == fs.now && fs2.st.next.xid == fs.now.sm.xid
  {
  }

  lemma CommitIs(fs0: Fs, op1: Op, fs1: Fs, op2: Op, fs2: Fs, fs3: Fs)
    requires Shape(fs0) && Shape(fs1) && op1.Rotate? && Can(fs0, op1) && fs1 == Next(fs0, op1)
    requires op2.WriteObjects? && Can(fs1, op2) && fs2 == Next(fs1, op2) && Shape(fs2) && FsInv(fs2) &&
      fs2.phase == Written
    requires IsHistory(fs2, [Wait, Tear, Finish]) && fs3 == After(fs2, [Wait, Tear, Finish]) && fs3.last == fs2.now
    ensures Commits(fs0, [op1, op2] + [Wait, Tear, Finish], fs3)
  {
    hide IsHistory, After, Shape, Can, Next, FsInv;
    RotatedLast(fs0, op1);
    WrittenLast(fs1, op2);
    EndDone(fs2);
    HistoryMore(fs1, op2, [Wait, Tear, Finish]);
    HistoryMore(fs0, op1, [op2] + [Wait, Tear, Finish]);
    assert [op1] + ([op2] + [Wait, Tear, Finish]) == [op1, op2] + [Wait, Tear, Finish];
  }

  lemma HistoryMore(fs: Fs, op: Op, ops: seq<Op>)
    requires Shape(fs) && Can(fs, op) && IsHistory(Next(fs, op), ops)
    ensures IsHistory(fs, [op] + ops) && After(fs, [op] + ops) == After(Next(fs, op), ops)
  {
    hide Can, Next, Shape;
    assert ([op] + ops)[1..] == ops;
  }

  lemma ChangeDone(fs: Fs, b: nat, payload: Bytes)
    requires Shape(fs) && FsInv(fs) && fs.phase == Open && IsObject(fs, b) && InPlace(fs, b)
    ensures var op := Change(b, payload);
      && Can(fs, op) && Shape(Next(fs, op)) && FsInv(Next(fs, op))
      && Next(fs, op) == fs.(st := fs.st.(dirty := fs.st.dirty[b := Object(fs.now.sm.xid, payload)]))
  {
    hide FsInv, Shape;
    WriteOpKeeps(fs, Change(b, payload));
    InvIsShape(Next(fs, Change(b, payload)));
    assert fs.st.dirty + map[b := Object(fs.now.sm.xid, payload)] == fs.st.dirty[b := Object(fs.now.sm.xid, payload)];
  }

  lemma ShapeGeo(fs: Fs)
    requires Shape(fs)
    ensures fs.geo.Valid() && fs.geo.descBlks >= 2
  {
  }

  lemma NextLen(geo: Geometry, sb: Sb, list: seq<Eph>)
    requires geo.Valid()
    ensures NextSb(geo, sb, list).descLen > 0 && NextSb(geo, sb, list).xid == sb.xid
  {
  }

  lemma ObjectsDone(fs: Fs, op: Op)
    requires Shape(fs) && FsInv(fs) && fs.phase == Rotated && op.WriteObjects? && SizesOk(op.list)
    requires op.next == NextSb(fs.geo, fs.st.cp, op.list).(xid := fs.now.sm.xid)
    requires !HitsLimit(fs.geo, op.list) && !JumpsLimit(fs.geo, op.list)
    requires CpmCount(|op.list|, fs.geo.maxMaps) <= fs.geo.DescLimit()
    requires Touched(op.bufs, fs.st.dirty, LayoutBlocks(fs.geo, op.next))
    requires Layout(fs.geo, op.bufs, op.next.(xid := fs.st.cp.xid), op.list)
    ensures Can(fs, op) && Shape(Next(fs, op)) && FsInv(Next(fs, op))
    ensures Next(fs, op) ==
      fs.(phase := Written, st := fs.st.(dirty := op.bufs, ready := true, next := op.next, nextList := op.list))
  {
    hide FsInv, Shape, HitsLimit, JumpsLimit, SizesOk, CpmCount, Stream, Touched, LayoutBlocks, Layout;
    ShapeGeo(fs);
    LayoutXid(fs.geo, op.bufs, op.next.(xid := fs.st.cp.xid), fs.now.sm.xid, op.list);
    OpKeeps(fs, op);
    InvIsShape(Next(fs, op));
  }

  lemma EndWait(fs: Fs, fs2: Fs)
    requires Shape(fs) && FsInv(fs) && fs.phase == Written
    requires fs2 == fs.(st := Apply(fs.geo, fs.st, Sync), phase := Synced)
    ensures Can(fs, Wait) && Next(fs, Wait) == fs2 && Shape(fs2) && FsInv(fs2)
  {
    hide FsInv, Shape;
    WaitKeeps(fs);
    InvIsShape(fs2);
  }

  lemma EndTear(fs: Fs, fs2: Fs)
    requires Shape(fs) && FsInv(fs) && fs.phase == Synced && fs2 == fs.(st := Apply(fs.geo, fs.st, TearSuper))
    ensures Can(fs, Tear) && Next(fs, Tear) == fs2 && Shape(fs2) && FsInv(fs2) && fs.st.next.descLen > 0
  {
    hide FsInv, Shape;
    TearKeeps(fs);
    FinishEnabled(fs);
    InvIsShape(fs2);
  }

  lemma EndFinish(fs: Fs)
    requires Shape(fs) && FsInv(fs) && fs.phase == Synced
    ensures Can(fs, Finish) && Next(fs, Finish) == Finished(fs) && Shape(Finished(fs)) && FsInv(Finished(fs)) &&
      fs.st.next.descLen > 0
  {
    hide FsInv, Shape, Fs.UsedBy;
    FinishKeeps(fs);
    FinishEnabled(fs);
    InvIsShape(Finished(fs));
  }

  lemma NoHistory(fs: Fs)
    ensures IsHistory(fs, []) && After(fs, []) == fs
  {
  }

  /** The three steps that end a commit, and what they leave. */
  lemma EndDone(fs: Fs)
    requires Shape(fs) && FsInv(fs) && fs.phase == Written
    ensures fs.st.next.descLen > 0 && IsHistory(fs, [Wait, Tear, Finish])
    ensures var fs2 := After(fs, [Wait, Tear, Finish]);
      && Shape(fs2) && FsInv(fs2) && fs2 == fs.(phase := Closed, last := fs.now, trans := {}, st := fs2.st)
      && fs2.st.disk == (fs.st.disk + fs.st.dirty)[SuperBno(fs.geo, fs.st.next) := Super(fs.st.next)]
      && fs2.st.dirty == map[] && fs2.st.cp == fs.st.next
  {
    hide FsInv, Shape, Fs.UsedBy, IsHistory, After, Can, Next;
    ShapeGeo(fs);
    var fs1 := fs.(st := Apply(fs.geo, fs.st, Sync), phase := Synced);
    EndWait(fs, fs1);
    var fs2 := fs1.(st := Apply(fs1.geo, fs1.st, TearSuper));
    EndTear(fs1, fs2);
    EndFinish(fs2);
    NoHistory(Finished(fs2));
    HistoryMore(fs2, Finish, []);
    HistoryMore(fs1, Tear, [Finish] + []);
    HistoryMore(fs, Wait, [Tear] + ([Finish] + []));
    assert [Wait] + ([Tear] + ([Finish] + [])) == [Wait, Tear, Finish];
  }

  /** The new block belongs to the filesystem, and nobody used it. */
  ghost predicate TookAt(fs: Fs, fs2: Fs, at: nat, block: Block) {
    && at !in fs.now.live && at !in fs.st.used && fs2.now.live == fs.now.live + {at}
    && at in fs2.Cache() && fs2.Cache()[at] == block
  }

  lemma TakeDone(fs: Fs, i: nat, block: Block, cibs: nat -> Block)
    requires Shape(fs) && FsInv(fs) && fs.phase == Open && fs.now.sm.Shape() && HasFree(fs.now.sm, i)
    requires block.Data? || (block.Object? && block.xid == fs.now.sm.xid)
    ensures var op, at, sm := Take(i, block, cibs), FirstFree(fs.now.sm, i), fs.now.sm.Alloc(i);
      && Can(fs, op) && Shape(Next(fs, op)) && FsInv(Next(fs, op)) && TookAt(fs, Next(fs, op), at, block)
      && Changes(fs, Next(fs, op), sm, SpaceWrites(sm, cibs)[at := block])
  {
    hide Inv, LastOk, S.Sm.Inv, S.Sm.Shape, S.Sm.Alloc, Copies, TransOk, CopiesOn, FixedLive, FirstFree, SpaceWrites,
      FsInv;
    var op, at := Take(i, block, cibs), FirstFree(fs.now.sm, i);
    WriteOpKeeps(fs, op);
    InvIsShape(Next(fs, op));
    TakeApart(fs, i);
  }

  lemma TakeApart(fs: Fs, i: nat)
    requires Shape(fs) && FsInv(fs) && fs.phase == Open && fs.now.sm.Shape() && HasFree(fs.now.sm, i)
    ensures FirstFree(fs.now.sm, i) !in fs.now.live && FirstFree(fs.now.sm, i) !in fs.st.used
  {
    hide Inv, LastOk, S.Sm.Inv, S.Sm.Shape, S.Sm.Alloc, Copies, TransOk, CopiesOn, FixedLive, FirstFree;
    var at := FirstFree(fs.now.sm, i);
    TakeSpace(fs, i);
    NotFixed(fs, at);
    SpareBlock(fs, at);
  }

  lemma PutLast(dirty: Disk, w: Disk, b: nat, block: Block)
    ensures (dirty + w)[b := block] == dirty + w[b := block]
  {
  }

  lemma TookFrom(sm: S.Sm, i: nat, b: nat, sm2: S.Sm)
    requires sm.Shape() && AllocatedIn(sm, i, b, sm2)
    ensures HasFree(sm, i) && b == FirstFree(sm, i) && sm2 == sm.Alloc(i)
  {
    hide S.Sm.Alloc, Zeros, FindZero;
  }

  lemma OpenSpace(fs: Fs)
    requires Shape(fs) && FsInv(fs) && fs.phase == Open
    ensures fs.now.sm.Inv(fs.now.live, 0, 0, fs.Committed(), fs.last.sm.disk) && fs.now.sm.xid > 0 && fs.now.sm.Shape()
  {
    hide Inv, LastOk, Copies, TransOk, CopiesOn;
  }
}
