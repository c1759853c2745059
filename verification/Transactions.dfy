/** Transactions as a whole (transaction.c, object.c, spaceman.c): the space manager decides
    which blocks are free, the transaction id in the header of an object decides if it may be
    changed in place, and the disk may stop at any moment. */
module Transactions {
  import opened Bitmaps
  import opened Checkpoints
  import opened Crashes
  import opened Spaceman
  import opened SpaceCopies
  import R = IpBitmaps

  /** The part of a container's state that a checkpoint saves: the space manager, the blocks
      that are in use for anything else, and the locations of the bitmaps of the pool. */
  datatype Saved = Saved(sm: Sm, live: set<nat>, slots: seq<nat>, queue: seq<nat>)

  datatype Phase = Closed | Open | Rotated | Written | Synced | Aborted

  /** A mounted container: where its fixed areas are, what the current transaction has done
      so far, what the last checkpoint saved, and the disk. */
  datatype Fs = Fs(geo: Geometry, ipBm: nat, ipBlocks: nat, now: Saved, trans: set<nat>, phase: Phase, last: Saved,
    st: State) {

    /** Block zero, the rings, and the locations of the bitmaps of the pool. */
    predicate IsFixed(b: nat) { b == 0 || geo.InDesc(b) || geo.InData(b) || ipBm <= b < ipBm + ipBlocks }

    function Locations(slots: seq<nat>): set<nat> { set i | 0 <= i < |slots| :: ipBm + slots[i] }

    /** All that a checkpoint uses outside of the rings. */
    function UsedBy(sv: Saved): set<nat> {
      (set b | b in sv.live && !IsFixed(b)) + sv.sm.OwnBlocks() + Locations(sv.slots)
    }

    function Committed(): set<nat> { last.live + last.sm.OwnBlocks() }

    /** The contents of the blocks as the transaction sees them. */
    function Cache(): Disk { st.disk + st.dirty }
  }

  // The invariant

  ghost predicate Shape(fs: Fs) {
    && fs.geo.Valid() && fs.geo.descBlks >= 2
    && forall b: nat :: fs.ipBm <= b < fs.ipBm + fs.ipBlocks ==> Outside(fs.geo, b)
  }

  ghost predicate FixedLive(fs: Fs, live: set<nat>) {
    forall b: nat :: fs.IsFixed(b) ==> b in live
  }

  /** What a checkpoint saves is consistent. There are at least twice as many locations as
      bitmaps. */
  ghost predicate SavedOk(fs: Fs, sv: Saved) {
    && sv.sm.Inv(sv.live, 0, 0, {}, map[]) && sv.sm.cacheBase == 0 && sv.sm.xid > 0 && FixedLive(fs, sv.live)
    && R.Partition(sv.queue, sv.slots, fs.ipBlocks) && |sv.slots| <= |sv.queue|
  }

  ghost predicate BitmapsOn(disk: Disk, sm: Sm) {
    forall i :: 0 <= i < |sm.chunks| && sm.chunks[i].bmap != 0 ==> BitmapOn(disk, sm, i)
  }

  predicate BitmapOn(disk: Disk, sm: Sm, i: nat)
    requires i < |sm.chunks|
  {
    var b := sm.chunks[i].bmap;
    b in disk && b in sm.disk && disk[b] == Bitmap(sm.disk[b])
  }

  /** No object is newer than the checkpoint that has it. */
  ghost predicate Dated(fs: Fs, disk: Disk, sv: Saved) {
    forall b :: b in sv.live && !fs.IsFixed(b) && b in disk && disk[b].Object? ==> disk[b].xid <= sv.sm.xid
  }

  ghost predicate LastOk(fs: Fs)
    requires Shape(fs)
  {
    && SavedOk(fs, fs.last) && Inv(fs.geo, fs.st)
    && fs.st.used == fs.UsedBy(fs.last) && fs.st.cp.xid == fs.last.sm.xid
    && Dated(fs, fs.st.image, fs.last) && BitmapsOn(fs.st.image, fs.last.sm)
  }

  /** The blocks that the transaction allocated are not those of the last checkpoint, and its
      objects can be told by their header. */
  ghost predicate TransOk(fs: Fs) {
    forall b :: b in fs.trans ==>
      && b !in fs.Committed() && !fs.IsFixed(b) && !fs.now.sm.InIp(b) && b in fs.Cache()
      && (fs.Cache()[b].Object? ==> fs.Cache()[b].xid == fs.now.sm.xid)
  }

  /** The copies of the space manager's blocks are up to date. */
  ghost predicate CopiesOn(fs: Fs) {
    && (forall i :: 0 <= i < |fs.now.sm.chunks| && CurrentChunk(fs.now.sm, i) ==> BitmapOn(fs.Cache(), fs.now.sm, i))
    && (forall b :: b in CurrentBlocks(fs.now.sm) ==> b in fs.Cache())
  }

  ghost predicate SpaceOk(fs: Fs) {
    && fs.now.sm.Inv(fs.now.live, 0, 0, fs.Committed(), fs.last.sm.disk)
    && fs.now.sm.xid == fs.last.sm.xid + 1 && Copies(fs.last.sm.(xid := fs.now.sm.xid), fs.now.sm)
  }

  ghost predicate Running(fs: Fs) {
    && SpaceOk(fs) && FixedLive(fs, fs.now.live)
    && (forall b :: b in fs.now.live ==> fs.IsFixed(b) || b in fs.trans || b in fs.last.live)
    && TransOk(fs) && CopiesOn(fs)
  }

  ghost predicate LocationsOk(fs: Fs) {
    && R.Partition(fs.now.queue, fs.now.slots, fs.ipBlocks)
    && |fs.now.slots| == |fs.last.slots| && |fs.now.queue| == |fs.last.queue|
    && forall b :: b in fs.Locations(fs.now.slots) ==> b in fs.Cache()
  }

  ghost predicate PhaseOk(fs: Fs) {
    match fs.phase
    case Closed => fs.now == fs.last && fs.trans == {} && fs.st.dirty == map[] && !fs.st.ready
    case Open =>
      Running(fs) && fs.now.slots == fs.last.slots && fs.now.queue == fs.last.queue && !fs.st.ready
    case Rotated => Running(fs) && LocationsOk(fs) && fs.now.sm.cacheBase == 0 && !fs.st.ready
    case Written =>
      Running(fs) && LocationsOk(fs) && fs.now.sm.cacheBase == 0 && fs.st.ready && fs.st.next.xid == fs.now.sm.xid
    case Synced =>
      && Running(fs) && LocationsOk(fs) && fs.now.sm.cacheBase == 0 && fs.st.ready && fs.st.next.xid == fs.now.sm.xid
      && fs.st.dirty == map[]
    case Aborted => true
  }

  ghost predicate FsInv(fs: Fs) { Shape(fs) && LastOk(fs) && PhaseOk(fs) }

  // Operations

  datatype Op =
    | Begin(sm: Sm, lo: nat, hi: nat, ok: bool, cibs: nat -> Block)
    | Take(i: nat, block: Block, cibs: nat -> Block)
    | ReadForWrite(bno: nat, preserve: bool, i: nat, cibs: nat -> Block)
    | Change(b: nat, payload: Bytes)
    | ChangeData(b: nat, bytes: Bytes)
    | Release(b: nat)
    | Rotate(dirty: seq<bool>, slots: seq<nat>, queue: seq<nat>, bitmaps: nat -> Block)
    | WriteObjects(bufs: Disk, next: Sb, list: seq<Eph>)
    | Wait
    | Tear
    | Finish
    | CopyToZero
    | Land(b: nat)
    | Abort
    | Crash(landed: set<nat>)

  /** Everything that the space manager has in copies is written there. */
  function SpaceWrites(sm: Sm, cibs: nat -> Block): Disk {
    map b | b in CurrentBlocks(sm) :: if b in CurrentBitmaps(sm) && b in sm.disk then Bitmap(sm.disk[b]) else cibs(b)
  }

  /** A chunk has a free block, and the pool has what the change to it needs. */
  predicate HasFree(sm: Sm, i: nat) {
    && sm.nbits > 0 && sm.perCib > 0 && i < |sm.chunks| && sm.CibOf(i) < |sm.cibs|
    && sm.chunks[i].free > 0 && Zeros(sm.ipUsed) >= One(sm.OldBitmap(i)) + One(sm.cibs[sm.CibOf(i)].xid < sm.xid)
  }

  /** The block that an allocation from a chunk returns. */
  function FirstFree(sm: Sm, i: nat): nat
    requires sm.Shape() && i < |sm.chunks|
  {
    sm.Addr(i, FindZero(sm.Bits(i)))
  }

  predicate IsObject(fs: Fs, b: nat) { b in fs.now.live && !fs.IsFixed(b) && b in fs.Cache() && fs.Cache()[b].Object? }

  /** The test in apfs_read_object_block(). */
  predicate InPlace(fs: Fs, b: nat)
    requires IsObject(fs, b)
  {
    fs.Cache()[b].xid == fs.now.sm.xid
  }

  /** The object belongs to an older transaction. */
  predicate NeedsCopy(fs: Fs, b: nat) { IsObject(fs, b) && !InPlace(fs, b) }

  function CopyOf(fs: Fs, b: nat): Block
    requires IsObject(fs, b)
  {
    Object(fs.now.sm.xid, fs.Cache()[b].payload)
  }

  /** An allocation writes to the copies of the space manager, and to the new block. */
  function TakeWrites(fs: Fs, i: nat, block: Block, cibs: nat -> Block): Disk
    requires fs.now.sm.Shape() && HasFree(fs.now.sm, i)
  {
    SpaceWrites(fs.now.sm.Alloc(i), cibs)[FirstFree(fs.now.sm, i) := block]
  }

  /** Some blocks are written. */
  ghost function Wrote(fs: Fs, w: Disk): Fs
    requires Shape(fs)
  {
    fs.(st := Apply(fs.geo, fs.st, WriteBlocks(w)))
  }

  function Took(fs: Fs, fs2: Fs, i: nat): Fs
    requires fs.now.sm.Shape() && HasFree(fs.now.sm, i)
  {
    var b := FirstFree(fs.now.sm, i);
    fs2.(now := fs.now.(sm := fs.now.sm.Alloc(i), live := fs.now.live + {b}), trans := fs.trans + {b})
  }

  function Released(fs: Fs, b: nat): Fs {
    fs.(now := fs.now.(sm := fs.now.sm.QueueInsert(b, 1), live := fs.now.live - {b}))
  }

  /** When each operation may happen. None of this says where it writes. */
  ghost predicate Can(fs: Fs, op: Op)
    requires Shape(fs)
  {
    match op
    case Begin(sm, lo, hi, _, _) =>
      && fs.phase == Closed && sm.xid == fs.last.sm.xid + 1 && (op.ok ==> lo == hi == 0)
      && Copies(fs.last.sm.(xid := sm.xid), sm) && sm.Inv(fs.last.live, lo, hi, fs.Committed(), fs.last.sm.disk)
    case Take(i, block, _) =>
      && fs.phase == Open && fs.now.sm.Shape() && HasFree(fs.now.sm, i)
      && (block.Data? || (block.Object? && block.xid == fs.now.sm.xid))
    case ReadForWrite(bno, _, i, _) =>
      && fs.phase == Open && IsObject(fs, bno) && fs.now.sm.Shape() && (InPlace(fs, bno) || HasFree(fs.now.sm, i))
    case Change(b, _) => fs.phase == Open && IsObject(fs, b) && InPlace(fs, b)
    case ChangeData(b, _) => fs.phase == Open && b in fs.now.live && b in fs.trans && b in fs.Cache() &&
      fs.Cache()[b].Data?
    case Release(b) => fs.phase == Open && b in fs.now.live && !fs.IsFixed(b)
    case Rotate(dirty, slots, queue, _) =>
      && fs.phase == Open && |dirty| == |fs.now.slots|
      && R.Rotated(fs.now.queue, fs.now.slots, dirty, |dirty|, queue, slots)
    case WriteObjects(bufs, next, list) =>
      && fs.phase == Rotated && next == NextSb(fs.geo, fs.st.cp, list).(xid := fs.now.sm.xid)
      && CpmCount(|list|, fs.geo.maxMaps) <= fs.geo.DescLimit() && !HitsLimit(fs.geo, list) && !JumpsLimit(fs.geo, list)
      && next.descLen > 0 && Touched(bufs, fs.st.dirty, LayoutBlocks(fs.geo, next)) && Layout(fs.geo, bufs, next, list)
    case Wait => fs.phase == Written
    case Tear => fs.phase == Synced
    case Finish => fs.phase == Synced
    case CopyToZero => fs.phase == Closed
    case Land(b) => b in fs.st.dirty
    case Abort => fs.phase != Closed
    case Crash(_) => true
  }

  /** The step of the disk that each operation takes; a crash is not one. */
  ghost function StepOf(fs: Fs, op: Op): Step
    requires Shape(fs) && Can(fs, op)
  {
    match op
    case Begin(sm, _, _, _, cibs) => WriteBlocks(SpaceWrites(sm, cibs))
    case Take(i, block, cibs) =>
      WriteBlocks(TakeWrites(fs, i, block, cibs))
    case ReadForWrite(bno, _, i, cibs) =>
      WriteBlocks(if NeedsCopy(fs, bno) then TakeWrites(fs, i, CopyOf(fs, bno), cibs) else map[])
    case Change(b, payload) => WriteBlocks(map[b := Object(fs.now.sm.xid, payload)])
    case ChangeData(b, bytes) => WriteBlocks(map[b := Data(bytes)])
    case Rotate(dirty, slots, _, bitmaps) =>
      var changed := set i | 0 <= i < |slots| && i < |dirty| && dirty[i] :: fs.ipBm + slots[i];
      WriteBlocks(map b | b in changed :: bitmaps(b))
    case WriteObjects(bufs, next, list) => WriteCheckpoint(bufs, next, list)
    case Wait => Sync
    case Tear => TearSuper
    case Finish => CommitSuper(fs.UsedBy(fs.now))
    case CopyToZero => CopySuper
    case Land(b) => Persist(b)
    case _ => WriteBlocks(map[])
  }

  /** What is found after a crash. */
  function Crashed(st: State, landed: set<nat>): State {
    st.(disk := Landed(st.disk, st.dirty, landed), dirty := map[], ready := false)
  }

  /** The current state is now that of the last checkpoint. */
  ghost function Finished(fs: Fs): Fs
    requires Shape(fs)
  {
    fs.(st := Apply(fs.geo, fs.st, CommitSuper(fs.UsedBy(fs.now))), phase := Closed, last := fs.now, trans := {})
  }

  /** All but the last checkpoint is forgotten. */
  function AfterCrash(fs: Fs, landed: set<nat>): Fs {
    fs.(st := Crashed(fs.st, landed), now := fs.last, trans := {}, phase := Closed)
  }

  ghost function Next(fs: Fs, op: Op): Fs
    requires Shape(fs) && Can(fs, op)
  {
    var fs2 := fs.(st := Apply(fs.geo, fs.st, StepOf(fs, op)));
    match op
    case Begin(sm, _, _, ok, _) =>
      fs2.(now := fs.last.(sm := sm), phase := if ok then Open else Aborted)
    case Take(i, _, _) =>
      Took(fs, fs2, i)
    case ReadForWrite(bno, preserve, i, _) =>
      if !NeedsCopy(fs, bno) then fs2
      else if preserve then Took(fs, fs2, i)
      else Released(Took(fs, fs2, i), bno)
    case Release(b) => Released(fs2, b)
    case Rotate(_, slots, queue, _) =>
      fs2.(now := fs.now.(sm := fs.now.sm.FlushCache(), slots := slots, queue := queue), phase := Rotated)
    case WriteObjects(_, _, _) => fs2.(phase := Written)
    case Wait => fs2.(phase := Synced)
    case Finish => Finished(fs)
    case Abort => fs2.(phase := Aborted)
    case Crash(landed) => AfterCrash(fs, landed)
    case _ => fs2
  }

  // Where blocks are written

  /** A block that is not in a fixed area, and that the last checkpoint neither has live nor
      in its space manager, is not used by it. */
  lemma SpareBlock(fs: Fs, b: nat)
    requires Shape(fs) && LastOk(fs) && !fs.IsFixed(b) && b !in fs.Committed()
    ensures Outside(fs.geo, b) && b !in fs.st.used
  {
    hide Inv, Sm.Inv, Dated, BitmapsOn, Sm.OwnBlocks;
    if b in fs.Locations(fs.last.slots) {
      LocationsFixed(fs, fs.last.queue, fs.last.slots, b);
    }
  }

  lemma LocationsFixed(fs: Fs, queue: seq<nat>, slots: seq<nat>, b: nat)
    requires R.Partition(queue, slots, fs.ipBlocks) && b in fs.Locations(slots)
    ensures fs.IsFixed(b)
  {
    var i :| 0 <= i < |slots| && fs.ipBm + slots[i] == b;
    assert (queue + slots)[|queue| + i] == slots[i];
  }

  /** So are the copies that the space manager has made. */
  lemma SpareCopy(fs: Fs, sm: Sm, live: set<nat>, lo: nat, hi: nat, b: nat)
    requires Shape(fs) && LastOk(fs) && sm.Inv(live, lo, hi, fs.Committed(), fs.last.sm.disk) && FixedLive(fs, live)
    requires b in CurrentBlocks(sm)
    ensures Outside(fs.geo, b) && b !in fs.st.used && sm.InIp(b)
  {
    hide Inv, Sm.Counted, Sm.Owned, Sm.Protects, Sm.Dated, Dated, BitmapsOn, CurrentBlocks, LastOk;
    CurrentSpared(sm, live, lo, hi, fs.Committed(), fs.last.sm.disk);
    SpareBlock(fs, b);
  }

  /** The pool has no fixed blocks, and none that are in use. */
  lemma PoolApart(sm: Sm, live: set<nat>, lo: nat, hi: nat, committed: set<nat>, kept: map<nat, seq<bool>>, b: nat)
    requires sm.Inv(live, lo, hi, committed, kept) && b in live
    ensures !sm.InIp(b)
  {
    hide Sm.Counted, Sm.Owned, Sm.Protects, Sm.Dated;
  }

  lemma {:induction false} FewDirty(dirty: seq<bool>, n: nat)
    requires n <= |dirty|
    ensures R.DirtyCount(dirty, n) <= n
  {
    if n > 0 { FewDirty(dirty, n - 1); }
  }

  /** A bitmap of the pool goes to a location that the last checkpoint does not use. */
  lemma SpareLocation(fs: Fs, dirty: seq<bool>, slots: seq<nat>, queue: seq<nat>, i: nat)
    requires Shape(fs) && LastOk(fs) && |dirty| == |fs.last.slots|
    requires R.Rotated(fs.last.queue, fs.last.slots, dirty, |dirty|, queue, slots)
    requires i < |slots| && i < |dirty| && dirty[i]
    requires R.Partition(queue, slots, fs.ipBlocks)
    ensures Outside(fs.geo, fs.ipBm + slots[i]) && fs.ipBm + slots[i] !in fs.st.used
  {
    hide Inv, Sm.Counted, Sm.Owned, Sm.Protects, Sm.Dated, Dated, BitmapsOn, R.Rotated, R.DirtyCount;
    var b := fs.ipBm + slots[i];
    FewDirty(dirty, |dirty|);
    assert fs.last.queue != [];
    R.RotatedReuse(fs.last.queue, fs.last.slots, dirty, queue, slots, fs.ipBlocks);
    assert (queue + slots)[|queue| + i] == slots[i];
    assert fs.IsFixed(b);
    PoolApart(fs.last.sm, fs.last.live, 0, 0, {}, map[], b);
    CurrentSpared(fs.last.sm, fs.last.live, 0, 0, {}, map[]);
  }
}
