/** Crash atomicity of the checkpoint protocol (transaction.c, super.c). The writes of a
    transaction may reach the disk in any order, or not at all, until the superblock of
    its checkpoint is written. A mount at any moment finds the last checkpoint whose
    superblock was written, with everything that it uses unchanged. */
module Crashes {
  import opened Checkpoints

  // Finding the checkpoint to mount

  predicate IsSuper(disk: Disk, b: nat) { b in disk && disk[b].Super? }

  /** The superblock is the latest valid one, or the copy in block zero if none of the
      descriptors is later. */
  ghost predicate Selected(geo: Geometry, disk: Disk, sb: Sb, bno: nat) {
    && IsSuper(disk, 0) && IsSuper(disk, bno) && disk[bno].sb == sb
    && (bno == 0 || (geo.InDesc(bno) && sb.xid > disk[0].sb.xid))
    && forall b :: geo.InDesc(b) && IsSuper(disk, b) ==> disk[b].sb.xid <= sb.xid
  }

  /** The scan in apfs_read_main_super(). */
  method ReadMainSuper(geo: Geometry, disk: Disk) returns (sb: Sb, bno: nat)
    requires geo.Valid() && IsSuper(disk, 0)
    ensures Selected(geo, disk, sb, bno)
  {
    sb, bno := disk[0].sb, 0;
    var i := 0;
    while i < geo.descBlks
      invariant i <= geo.descBlks && IsSuper(disk, bno) && disk[bno].sb == sb && sb.xid >= disk[0].sb.xid
      invariant bno == 0 || (geo.InDesc(bno) && sb.xid > disk[0].sb.xid)
      invariant forall b :: geo.descBase <= b < geo.descBase + i && IsSuper(disk, b) ==> disk[b].sb.xid <= sb.xid
    {
      var b := geo.descBase + i;
      if b in disk && disk[b].Super? && disk[b].sb.xid > sb.xid {
        sb, bno := disk[b].sb, b;
      }
      i := i + 1;
    }
  }

  // The protocol

  /** The disk; the last checkpoint, with the blocks that it uses outside of the rings,
      the contents of the disk when it was committed and its ephemeral objects; and the
      blocks of the running transaction, with the next checkpoint once it is written. */
  datatype State = State(disk: Disk, cp: Sb, used: set<nat>, image: Disk, list: seq<Eph>, dirty: Disk, ready: bool,
    next: Sb, nextList: seq<Eph>)

  function SuperBno(geo: Geometry, sb: Sb): nat
    requires geo.Valid() && sb.descLen > 0
  {
    geo.DescBno(sb.descIndex + sb.descLen - 1)
  }

  predicate SbOk(geo: Geometry, sb: Sb, list: seq<Eph>)
    requires geo.Valid()
  {
    && 0 < sb.descLen <= geo.DescLimit() + 1 && sb.dataLen == |Stream(list)| <= geo.DataLimit()
    && sb.descNext == (sb.descIndex + sb.descLen) % geo.descBlks &&
      sb.dataNext == (sb.dataIndex + sb.dataLen) % geo.dataBlks
  }

  function Reach(geo: Geometry, st: State): set<nat>
    requires geo.Valid()
  {
    st.used + RingBlocks(geo, st.cp)
  }

  predicate Outside(geo: Geometry, b: nat) { b != 0 && !geo.InDesc(b) && !geo.InData(b) }

  /** The superblock of the checkpoint is the only one as late as it is. */
  ghost predicate Latest(geo: Geometry, disk: Disk, sb: Sb)
    requires geo.Valid() && sb.descLen > 0
  {
    && IsSuper(disk, 0) && disk[0].sb.xid <= sb.xid && (disk[0].sb.xid == sb.xid ==> disk[0].sb == sb)
    && IsSuper(disk, SuperBno(geo, sb)) && disk[SuperBno(geo, sb)].sb == sb
    && forall b :: geo.InDesc(b) && IsSuper(disk, b) ==> b == SuperBno(geo, sb) || disk[b].sb.xid < sb.xid
  }

  ghost predicate Agree(disk: Disk, image: Disk, blocks: set<nat>) {
    forall b :: b in blocks ==> b in disk && b in image && disk[b] == image[b]
  }

  ghost predicate DirtyOk(geo: Geometry, st: State)
    requires geo.Valid()
  {
    && 0 !in st.dirty && (forall b :: b in Reach(geo, st) ==> b !in st.dirty)
    && (forall b :: geo.InDesc(b) && b in st.dirty ==> st.dirty[b].Cpm?)
  }

  ghost predicate Inv(geo: Geometry, st: State)
    requires geo.Valid()
  {
    && SbOk(geo, st.cp, st.list) && Latest(geo, st.disk, st.cp)
    && (forall b :: b in st.used ==> Outside(geo, b))
    && Agree(st.disk, st.image, Reach(geo, st)) && Layout(geo, st.image, st.cp, st.list)
    && DirtyOk(geo, st) && (st.ready ==> Prepared(geo, st))
  }

  /** The next checkpoint is complete but for its superblock, in blocks of its own. */
  ghost predicate Prepared(geo: Geometry, st: State)
    requires geo.Valid()
  {
    && SbOk(geo, st.next, st.nextList) && st.next.xid > st.cp.xid
    && Layout(geo, st.disk + st.dirty, st.next, st.nextList)
    && RingBlocks(geo, st.next) !! RingBlocks(geo, st.cp)
  }

  /** Some of the pending writes have reached the disk. */
  function Landed(disk: Disk, dirty: Disk, landed: set<nat>): Disk {
    map b | b in disk.Keys + (dirty.Keys * landed) :: if b in dirty && b in landed then dirty[b] else disk[b]
  }

  lemma LandedLatest(geo: Geometry, st: State, landed: set<nat>)
    requires geo.Valid() && Inv(geo, st)
    ensures Latest(geo, Landed(st.disk, st.dirty, landed), st.cp)
    ensures Agree(Landed(st.disk, st.dirty, landed), st.image, Reach(geo, st))
  {
    hide Layout;
    var b := SuperBno(geo, st.cp);
    InDescRange(geo, st.cp.descIndex, st.cp.descLen, st.cp.descLen - 1);
    assert b in Reach(geo, st);
  }

  lemma LatestSelected(geo: Geometry, disk: Disk, sb: Sb, got: Sb, bno: nat)
    requires geo.Valid() && sb.descLen > 0 && Latest(geo, disk, sb) && Selected(geo, disk, got, bno)
    ensures got == sb
  {
  }

  ghost predicate SameOn(disk: Disk, disk2: Disk, blocks: set<nat>) {
    forall b :: b in blocks ==> (b in disk <==> b in disk2) && (b in disk ==> disk[b] == disk2[b])
  }

  /** The blocks of a checkpoint other than its superblock. */
  function LayoutBlocks(geo: Geometry, sb: Sb): set<nat>
    requires geo.Valid() && sb.descLen > 0
  {
    DescRange(geo, sb.descIndex, sb.descLen - 1) + DataRange(geo, sb.dataIndex, sb.dataLen)
  }

  lemma LayoutSame(geo: Geometry, disk: Disk, disk2: Disk, sb: Sb, list: seq<Eph>)
    requires geo.Valid() && Layout(geo, disk, sb, list) && sb.dataLen == |Stream(list)|
    requires SameOn(disk, disk2, LayoutBlocks(geo, sb))
    ensures Layout(geo, disk2, sb, list)
  {
    hide Stream, Mappings, MapsOf, CpmsOk;
    var n := sb.descLen - 1;
    MapsOfSame(geo, disk, disk2, sb.descIndex, n);
    forall p | 0 <= p < |Stream(list)|
      ensures Holds(geo, disk2, sb.dataIndex, p, Stream(list)[p])
    {
      InDataRange(geo, sb.dataIndex, sb.dataLen, p);
      assert Holds(geo, disk, sb.dataIndex, p, Stream(list)[p]);
    }
  }

  /** A crash at any moment, with any part of the pending writes on disk: the mount scan
      picks the last committed checkpoint, with all of its blocks and objects. */
  lemma CrashSafe(geo: Geometry, st: State, landed: set<nat>, sb: Sb, bno: nat)
    requires geo.Valid() && Inv(geo, st)
    ensures var disk := Landed(st.disk, st.dirty, landed);
      && IsSuper(disk, 0) && (Selected(geo, disk, sb, bno) ==> sb == st.cp)
      && Agree(disk, st.image, Reach(geo, st)) && Layout(geo, disk, st.cp, st.list)
  {
    hide Layout;
    LandedLatest(geo, st, landed);
    var disk := Landed(st.disk, st.dirty, landed);
    if Selected(geo, disk, sb, bno) { LatestSelected(geo, disk, st.cp, sb, bno); }
    LayoutSame(geo, st.image, disk, st.cp, st.list);
  }

  // Steps

  datatype Step =
    | WriteBlocks(blocks: Disk)
    | WriteCheckpoint(bufs: Disk, next: Sb, list: seq<Eph>)
    | Persist(b: nat)
    | Sync
    | TearSuper
    | CommitSuper(used: set<nat>)
    | CopySuper

  /** Blocks are written where the last checkpoint does not use them. The objects are not
      refused for reaching the limit of the data ring, and don't jump over it. The superblock
      is only written after everything else. */
  ghost predicate Enabled(geo: Geometry, st: State, step: Step)
    requires geo.Valid()
  {
    match step
    case WriteBlocks(blocks) => forall b :: b in blocks ==> Outside(geo, b) && b !in st.used
    case WriteCheckpoint(bufs, next, list) =>
      && next.xid > st.cp.xid && next == NextSb(geo, st.cp, list).(xid := next.xid)
      && CpmCount(|list|, geo.maxMaps) <= geo.DescLimit() && !HitsLimit(geo, list) && !JumpsLimit(geo, list)
      && Touched(bufs, st.dirty,
        DescRange(geo, next.descIndex, next.descLen - 1) + DataRange(geo, next.dataIndex, next.dataLen))
      && Layout(geo, bufs, next, list)
    case Persist(b) => b in st.dirty
    case Sync => true
    case TearSuper => st.ready && st.dirty == map[]
    case CommitSuper(used) => st.ready && st.dirty == map[] && forall b :: b in used ==> Outside(geo, b) && b in st.disk
    case CopySuper => true
  }

  function Apply(geo: Geometry, st: State, step: Step): State
    requires geo.Valid()
  {
    match step
    case WriteBlocks(blocks) => st.(dirty := st.dirty + blocks)
    case WriteCheckpoint(bufs, next, list) => st.(dirty := bufs, ready := true, next := next, nextList := list)
    case Persist(b) => if b in st.dirty then st.(disk := st.disk[b := st.dirty[b]]) else st
    case Sync => st.(disk := st.disk + st.dirty, dirty := map[])
    case TearSuper => if st.next.descLen > 0 then st.(disk := st.disk[SuperBno(geo, st.next) := Torn]) else st
    case CommitSuper(used) =>
      if st.next.descLen == 0 then st
      else
        var disk := st.disk[SuperBno(geo, st.next) := Super(st.next)];
        State(disk, st.next, used, disk, st.nextList, map[], false, st.next, st.nextList)
    case CopySuper => st.(disk := st.disk[0 := Super(st.cp)])
  }

  // Every step keeps the invariant

  lemma WriteBlocksKeeps(geo: Geometry, st: State, blocks: Disk)
    requires geo.Valid() && Inv(geo, st) && Enabled(geo, st, WriteBlocks(blocks))
    ensures Inv(geo, Apply(geo, st, WriteBlocks(blocks)))
  {
    hide Layout, Latest, Agree, SbOk, DescRange, DataRange;
    var st2 := Apply(geo, st, WriteBlocks(blocks));
    assert Reach(geo, st2) == Reach(geo, st);
    if st.ready {
      LayoutSame(geo, st.disk + st.dirty, st2.disk + st2.dirty, st.next, st.nextList)
        by { SbLen(geo, st.next, st.nextList); }
    }
  }

  lemma SbLen(geo: Geometry, sb: Sb, list: seq<Eph>)
    requires geo.Valid() && SbOk(geo, sb, list)
    ensures sb.descLen > 0 && sb.dataLen == |Stream(list)|
  {
  }

  /** The descriptor blocks of consecutive checkpoints never overlap, and neither do their
      data blocks, as long as no object jumps over the limit. */
  lemma NextApart(geo: Geometry, sb: Sb, list: seq<Eph>, next: Sb, nextList: seq<Eph>)
    requires geo.Valid() && geo.descBlks >= 2 && SbOk(geo, sb, list) &&
      CpmCount(|nextList|, geo.maxMaps) <= geo.DescLimit()
    requires next == NextSb(geo, sb, nextList).(xid := next.xid)
    requires SizesOk(nextList) && !HitsLimit(geo, nextList) && !JumpsLimit(geo, nextList)
    ensures SbOk(geo, next, nextList) && RingBlocks(geo, next) !! RingBlocks(geo, sb)
  {
    hide DescRange, DataRange, Stream, CpmCount, HitsLimit, JumpsLimit, SizesOk;
    QuarterLimit(geo, nextList);
    assert sb.descLen + next.descLen <= geo.descBlks;
    NextStretch(geo, sb.descIndex, sb.descLen, next.descLen, sb.dataIndex, sb.dataLen, next.dataLen, sb.descNext,
      sb.dataNext);
  }

  /** The stretch of a ring that starts where another ends, given as an index in it. */
  lemma NextStretch(geo: Geometry, i: nat, n: nat, m: nat, j: nat, p: nat, q: nat, i2: nat, j2: nat)
    requires geo.Valid() && n + m <= geo.descBlks && p + q <= geo.dataBlks
    requires i2 == (i + n) % geo.descBlks && j2 == (j + p) % geo.dataBlks
    ensures DescRange(geo, i2, m) + DataRange(geo, j2, q) !! DescRange(geo, i, n) + DataRange(geo, j, p)
  {
    hide DescRange, DataRange;
    StretchesApart(geo, i, n, m, j, p, q);
  }

  lemma StretchesApart(geo: Geometry, i: nat, n: nat, m: nat, j: nat, p: nat, q: nat)
    requires geo.Valid() && n + m <= geo.descBlks && p + q <= geo.dataBlks
    ensures DescRange(geo, (i + n) % geo.descBlks, m) !! DescRange(geo, i, n)
    ensures DataRange(geo, (j + p) % geo.dataBlks, q) !! DataRange(geo, j, p)
  {
    hide DescRange, DataRange;
    RangesApart(geo, i, n, m);
    RangesApart(geo, j, p, q);
    RangeModulo(geo, i + n, m);
    RangeModulo(geo, j + p, q);
  }

  lemma WriteCheckpointKeeps(geo: Geometry, st: State, bufs: Disk, next: Sb, list: seq<Eph>)
    requires geo.Valid() && geo.descBlks >= 2 && Inv(geo, st) && Enabled(geo, st, WriteCheckpoint(bufs, next, list))
    ensures Inv(geo, Apply(geo, st, WriteCheckpoint(bufs, next, list)))
  {
    hide Layout, Latest, Agree, DescRange, DataRange, Stream, CpmCount, HitsLimit, JumpsLimit, SizesOk;
    var st2 := Apply(geo, st, WriteCheckpoint(bufs, next, list));
    assert Reach(geo, st2) == Reach(geo, st);
    assert SizesOk(list) by { LayoutSizes(geo, bufs, next, list); }
    NextApart(geo, st.cp, st.list, next, list);
    var blocks := LayoutBlocks(geo, next);
    assert blocks <= RingBlocks(geo, next) by { LayoutInRing(geo, next); }
    LayoutIn(geo, bufs, next, list);
    LayoutSame(geo, bufs, st.disk + bufs, next, list);
    forall b | b !in blocks
      ensures (b in bufs <==> b in st.dirty) && (b in bufs ==> bufs[b] == st.dirty[b])
    {
      assert (b in bufs <==> b in bufs - blocks) && (b in st.dirty <==> b in st.dirty - blocks);
    }
  }

  lemma LayoutSizes(geo: Geometry, disk: Disk, sb: Sb, list: seq<Eph>)
    requires geo.Valid() && Layout(geo, disk, sb, list)
    ensures SizesOk(list)
  {
  }

  lemma LayoutInRing(geo: Geometry, sb: Sb)
    requires geo.Valid() && sb.descLen > 0
    ensures LayoutBlocks(geo, sb) <= RingBlocks(geo, sb)
  {
  }

  /** The blocks of a checkpoint are there; those in the descriptor ring are mappings. */
  lemma LayoutIn(geo: Geometry, disk: Disk, sb: Sb, list: seq<Eph>)
    requires geo.Valid() && Layout(geo, disk, sb, list) && sb.dataLen == |Stream(list)|
    ensures forall b :: b in LayoutBlocks(geo, sb) ==> b in disk && (geo.InDesc(b) ==> disk[b].Cpm?)
  {
    hide Stream, Mappings, MapsOf;
    CpmsIn(geo, disk, sb.descIndex, sb.descLen - 1);
    DataIn(geo, disk, sb.dataIndex, sb.dataLen, Stream(list));
  }

  lemma {:induction false} CpmsIn(geo: Geometry, disk: Disk, i: nat, n: nat)
    requires geo.Valid() && CpmsOk(geo, disk, i, n)
    ensures forall b :: b in DescRange(geo, i, n) ==> b in disk && disk[b].Cpm?
  {
    if n > 0 {
      assert CpmOk(geo, disk, i + n - 1);
      CpmsIn(geo, disk, i, n - 1);
    }
  }

  lemma {:induction false} DataIn(geo: Geometry, disk: Disk, i: nat, n: nat, stream: seq<Bytes>)
    requires geo.Valid() && n <= |stream| && forall p :: 0 <= p < |stream| ==> Holds(geo, disk, i, p, stream[p])
    ensures forall b :: b in DataRange(geo, i, n) ==> b in disk
  {
    if n > 0 {
      assert Holds(geo, disk, i, n - 1, stream[n - 1]);
      DataIn(geo, disk, i, n - 1, stream);
    }
  }

  lemma PersistKeeps(geo: Geometry, st: State, step: Step)
    requires geo.Valid() && Inv(geo, st) && (step.Persist? || step.Sync?) && Enabled(geo, st, step)
    ensures Inv(geo, Apply(geo, st, step))
  {
    hide Layout, SbOk, DescRange, DataRange;
    var st2 := Apply(geo, st, step);
    var landed := if step.Persist? then {step.b} else st.dirty.Keys;
    LandedLatest(geo, st, landed);
    assert st2.disk == Landed(st.disk, st.dirty, landed);
    assert Reach(geo, st2) == Reach(geo, st);
    assert st2.disk + st2.dirty == st.disk + st.dirty;
  }

  lemma SuperApart(geo: Geometry, sb: Sb)
    requires geo.Valid() && 0 < sb.descLen <= geo.descBlks
    ensures SuperBno(geo, sb) in RingBlocks(geo, sb) && SuperBno(geo, sb) !in LayoutBlocks(geo, sb) &&
      geo.InDesc(SuperBno(geo, sb))
    ensures RingBlocks(geo, sb) == LayoutBlocks(geo, sb) + {SuperBno(geo, sb)}
  {
    NotInDescRange(geo, sb.descIndex, sb.descLen - 1, sb.descIndex + sb.descLen - 1);
  }

  lemma TearSuperKeeps(geo: Geometry, st: State)
    requires geo.Valid() && geo.descBlks >= 2 && Inv(geo, st) && Enabled(geo, st, TearSuper)
    ensures Inv(geo, Apply(geo, st, TearSuper))
  {
    hide Layout, DescRange, DataRange, Stream, RingBlocks, LayoutBlocks;
    var st2, b := Apply(geo, st, TearSuper), SuperBno(geo, st.next);
    SuperApart(geo, st.next);
    SuperApart(geo, st.cp);
    assert Reach(geo, st2) == Reach(geo, st);
    LayoutSame(geo, st.disk + st.dirty, st2.disk + st2.dirty, st.next, st.nextList);
  }

  lemma CommitSuperKeeps(geo: Geometry, st: State, used: set<nat>)
    requires geo.Valid() && geo.descBlks >= 2 && Inv(geo, st) && Enabled(geo, st, CommitSuper(used))
    ensures Inv(geo, Apply(geo, st, CommitSuper(used)))
  {
    hide Layout, DescRange, DataRange, Stream, RingBlocks, LayoutBlocks;
    var st2, b := Apply(geo, st, CommitSuper(used)), SuperBno(geo, st.next);
    SuperApart(geo, st.next);
    assert st.disk + st.dirty == st.disk;
    LayoutIn(geo, st.disk, st.next, st.nextList);
    LayoutSame(geo, st.disk, st2.disk, st.next, st.nextList);
  }

  lemma CopySuperKeeps(geo: Geometry, st: State)
    requires geo.Valid() && Inv(geo, st)
    ensures Inv(geo, Apply(geo, st, CopySuper))
  {
    hide Layout, SbOk, DescRange, DataRange, RingBlocks, LayoutBlocks;
    var st2 := Apply(geo, st, CopySuper);
    assert Reach(geo, st2) == Reach(geo, st);
    assert 0 !in RingBlocks(geo, st.cp) by { ZeroOutside(geo, st.cp); }
    if st.ready {
      SbLen(geo, st.next, st.nextList);
      ZeroOutside(geo, st.next);
      LayoutSame(geo, st.disk + st.dirty, st2.disk + st2.dirty, st.next, st.nextList);
    }
  }

  lemma ZeroOutside(geo: Geometry, sb: Sb)
    requires geo.Valid()
    ensures 0 !in RingBlocks(geo, sb) && (sb.descLen > 0 ==> 0 !in LayoutBlocks(geo, sb))
  {
  }

  lemma StepKeeps(geo: Geometry, st: State, step: Step)
    requires geo.Valid() && geo.descBlks >= 2 && Inv(geo, st) && Enabled(geo, st, step)
    ensures Inv(geo, Apply(geo, st, step))
  {
    hide Inv, Enabled, Apply;
    match step
    case WriteBlocks(blocks) => WriteBlocksKeeps(geo, st, blocks);
    case WriteCheckpoint(bufs, next, list) => WriteCheckpointKeeps(geo, st, bufs, next, list);
    case Persist(b) => PersistKeeps(geo, st, step);
    case Sync => PersistKeeps(geo, st, step);
    case TearSuper => TearSuperKeeps(geo, st);
    case CommitSuper(used) => CommitSuperKeeps(geo, st, used);
    case CopySuper => CopySuperKeeps(geo, st);
  }

  // Whole runs

  ghost predicate IsRun(geo: Geometry, st: State, steps: seq<Step>)
    requires geo.Valid()
    decreases |steps|
  {
    steps == [] || (Enabled(geo, st, steps[0]) && IsRun(geo, Apply(geo, st, steps[0]), steps[1..]))
  }

  function Run(geo: Geometry, st: State, steps: seq<Step>): State
    requires geo.Valid()
    decreases |steps|
  {
    if steps == [] then st else Run(geo, Apply(geo, st, steps[0]), steps[1..])
  }

  /** The checkpoint that the last superblock write of a run put in place, and its
      objects: those given by the latest WriteCheckpoint step before it. */
  function LastCommit(current: (Sb, seq<Eph>), pending: (Sb, seq<Eph>), steps: seq<Step>): (Sb, seq<Eph>)
    decreases |steps|
  {
    if steps == [] then current
    else
      match steps[0]
      case WriteCheckpoint(_, next, list) => LastCommit(current, (next, list), steps[1..])
      case CommitSuper(_) => LastCommit(pending, pending, steps[1..])
      case _ => LastCommit(current, pending, steps[1..])
  }

  /** Crash atomicity over whole runs: after any run of the protocol, cut at any point and
      with any part of the pending writes on disk, the mount scan finds the checkpoint of
      the last superblock write; its blocks are those of that moment, and its ephemeral
      objects are there to be read. */
  lemma {:induction false} RunCrashSafe(geo: Geometry, st: State, steps: seq<Step>, landed: set<nat>, sb: Sb, bno: nat)
    requires geo.Valid() && geo.descBlks >= 2 && Inv(geo, st) && IsRun(geo, st, steps)
    ensures var end, cp := Run(geo, st, steps), LastCommit((st.cp, st.list), (st.next, st.nextList), steps);
      var disk := Landed(end.disk, end.dirty, landed);
      && IsSuper(disk, 0) && (Selected(geo, disk, sb, bno) ==> sb == cp.0)
      && Agree(disk, end.image, Reach(geo, end)) && Layout(geo, disk, cp.0, cp.1)
    decreases |steps|
  {
    hide Inv, Layout, Agree, Landed, Selected, Reach, Enabled;
    if steps == [] {
      CrashSafe(geo, st, landed, sb, bno);
    } else {
      StepKeeps(geo, st, steps[0]);
      assert steps[0].CommitSuper? ==> st.next.descLen > 0 by { ReadyLen(geo, st, steps[0]); }
      RunCrashSafe(geo, Apply(geo, st, steps[0]), steps[1..], landed, sb, bno);
    }
  }

  lemma ReadyLen(geo: Geometry, st: State, step: Step)
    requires geo.Valid() && Inv(geo, st) && Enabled(geo, st, step)
    ensures step.CommitSuper? ==> st.next.descLen > 0
  {
  }

  function CommitSteps(bufs: Disk, next: Sb, list: seq<Eph>, used: set<nat>): seq<Step> {
    [WriteCheckpoint(bufs, next, list), Sync, CommitSuper(used)]
  }

  lemma LayoutXid(geo: Geometry, disk: Disk, sb: Sb, xid: nat, list: seq<Eph>)
    requires geo.Valid() && Layout(geo, disk, sb, list)
    ensures Layout(geo, disk, sb.(xid := xid), list)
  {
  }

  lemma CommitRun(geo: Geometry, st: State, bufs: Disk, next: Sb, list: seq<Eph>, used: set<nat>)
    requires geo.Valid() && geo.descBlks >= 2 && Inv(geo, st) && Enabled(geo, st, WriteCheckpoint(bufs, next, list))
    requires next.descLen > 0 && forall b :: b in used ==> Outside(geo, b) && (b in st.disk || b in bufs)
    ensures IsRun(geo, st, CommitSteps(bufs, next, list, used))
    ensures Run(geo, st, CommitSteps(bufs, next, list, used)).disk ==
      (st.disk + bufs)[SuperBno(geo, next) := Super(next)]
  {
    hide Inv, Layout, Touched, Stream, CpmCount, DescRange, DataRange;
    var steps := CommitSteps(bufs, next, list, used);
    var st1 := Apply(geo, st, steps[0]);
    var st2 := Apply(geo, st1, Sync);
    assert steps[1..][0] == Sync && steps[1..][1..] == [CommitSuper(used)];
    assert [CommitSuper(used)][1..] == [];
    assert Enabled(geo, st2, CommitSuper(used));
    assert IsRun(geo, st2, [CommitSuper(used)]);
    assert IsRun(geo, st1, steps[1..]);
    var st3 := Apply(geo, st2, CommitSuper(used));
    assert Run(geo, st2, [CommitSuper(used)]) == Run(geo, st3, []);
    assert Run(geo, st1, steps[1..]) == st3;
  }

  /** apfs_transaction_commit_nx() and apfs_checkpoint_end(): the objects are written, then
      all the buffers are submitted and waited for, and then comes the superblock. These
      are steps of the protocol, so that RunCrashSafe covers a crash at any moment. */
  method Commit(c: Container, disk: Disk, ghost used: set<nat>, ghost st: State)
    returns (status: Status, disk2: Disk, ghost bufs: Disk)
    requires c.geo.Valid() && c.geo.descBlks >= 2 && Inv(c.geo, st)
    requires disk == st.disk && c.bufs == st.dirty && c.sb == st.cp && c.xid > c.sb.xid
    requires SizesOk(c.list) && !JumpsLimit(c.geo, c.list)
    requires forall b :: b in used ==> Outside(c.geo, b) && (b in disk || b in c.bufs)
    modifies c
    ensures status == Corrupted <==> HitsLimit(c.geo, c.list) || CpmCount(|c.list|, c.geo.maxMaps) > c.geo.DescLimit()
    ensures status == Ok ==>
      c.sb == NextSb(c.geo, old(c.sb), c.list).(xid := c.xid) && c.list == old(c.list) && c.bufs == map[]
    ensures status == Ok ==>
            var steps := CommitSteps(bufs, c.sb, c.list, used);
            IsRun(c.geo, st, steps) && disk2 == Run(c.geo, st, steps).disk
  {
    hide Inv, Layout, Touched, Stream, CpmCount, HitsLimit, JumpsLimit, SizesOk, DescRange, DataRange, IsRun, Run,
      CommitSteps;
    disk2, bufs := disk, c.bufs;
    status := c.WriteEphemeralObjects();
    if status != Ok {
      return;
    }
    QuarterLimit(c.geo, c.list);
    bufs := c.bufs;
    LayoutXid(c.geo, bufs, c.sb, c.xid, c.list);
    OutsideStays(c.geo, bufs, st.dirty, c.sb, used, st.disk);
    disk2 := disk2 + c.bufs;
    c.bufs := map[];
    c.sb := c.sb.(xid := c.xid);
    disk2 := disk2[c.bno := Super(c.sb)];
    CommitRun(c.geo, st, bufs, c.sb, c.list, used);
  }

  lemma OutsideStays(geo: Geometry, bufs: Disk, dirty: Disk, sb: Sb, used: set<nat>, disk: Disk)
    requires geo.Valid() && sb.descLen > 0 && Touched(bufs, dirty, LayoutBlocks(geo, sb))
    requires forall b :: b in used ==> Outside(geo, b) && (b in disk || b in dirty)
    ensures forall b :: b in used ==> b in disk || b in bufs
  {
    forall b | b in used
      ensures b in disk || b in bufs
    {
      assert b !in LayoutBlocks(geo, sb) && (b in dirty ==> b in dirty - LayoutBlocks(geo, sb));
    }
  }

  /** A container with an empty checkpoint, and a copy of its superblock in block zero. */
  function Formatted(geo: Geometry, xid: nat): State
    requires geo.Valid()
  {
    var sb := Sb(xid, 0, 1, 1 % geo.descBlks, 0, 0, 0);
    var disk := map[0 := Super(sb), geo.descBase := Super(sb)];
    State(disk, sb, {}, disk, [], map[], false, sb, [])
  }

  /** The invariant holds to begin with. */
  lemma FormattedInv(geo: Geometry, xid: nat)
    requires geo.Valid()
    ensures Inv(geo, Formatted(geo, xid))
  {
    var st := Formatted(geo, xid);
    assert SuperBno(geo, st.cp) == geo.descBase;
    assert DescRange(geo, 0, 1) == {geo.descBase} by { assert DescRange(geo, 0, 0) == {}; }
    assert Reach(geo, st) == {geo.descBase};
  }

  /** So every run from there is safe: at any moment, the mount scan finds the last
      checkpoint that was committed. */
  lemma AlwaysMountable(geo: Geometry, xid: nat, steps: seq<Step>, landed: set<nat>, sb: Sb, bno: nat)
    requires geo.Valid() && geo.descBlks >= 2 && IsRun(geo, Formatted(geo, xid), steps)
    ensures var st := Formatted(geo, xid);
      var end, cp := Run(geo, st, steps), LastCommit((st.cp, []), (st.cp, []), steps);
      var disk := Landed(end.disk, end.dirty, landed);
      && IsSuper(disk, 0) && (Selected(geo, disk, sb, bno) ==> sb == cp.0)
      && Agree(disk, end.image, Reach(geo, end)) && Layout(geo, disk, cp.0, cp.1)
  {
    FormattedInv(geo, xid);
    RunCrashSafe(geo, Formatted(geo, xid), steps, landed, sb, bno);
  }
}
