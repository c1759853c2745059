/** Whole runs of a container, with any number of transactions and crashes. */
module TransactionRuns {
  import opened Arith
  import opened Bitmaps
  import opened Checkpoints
  import opened Crashes
  import opened Spaceman
  import opened SpaceCopies
  import opened Transactions
  import opened TransactionSteps
  import R = IpBitmaps

  ghost predicate IsHistory(fs: Fs, ops: seq<Op>)
    decreases |ops|
  {
    ops == [] || (Shape(fs) && Can(fs, ops[0]) && IsHistory(Next(fs, ops[0]), ops[1..]))
  }

  ghost function After(fs: Fs, ops: seq<Op>): Fs
    requires IsHistory(fs, ops)
    decreases |ops|
  {
    if ops == [] then fs else After(Next(fs, ops[0]), ops[1..])
  }

  /** The container stays consistent, whatever happens. */
  lemma {:induction false} HistoryKeeps(fs: Fs, ops: seq<Op>)
    requires FsInv(fs) && IsHistory(fs, ops)
    ensures FsInv(After(fs, ops))
    decreases |ops|
  {
    hide FsInv, Shape, Can, Next;
    if ops != [] {
      OpKeeps(fs, ops[0]);
      HistoryKeeps(Next(fs, ops[0]), ops[1..]);
    }
  }

  lemma {:induction false} HistorySplit(fs: Fs, ops: seq<Op>, k: nat)
    requires IsHistory(fs, ops) && k <= |ops|
    ensures IsHistory(fs, ops[..k]) && IsHistory(After(fs, ops[..k]), ops[k..])
    ensures After(fs, ops) == After(After(fs, ops[..k]), ops[k..])
    decreases |ops|
  {
    hide FsInv, Shape, Can, Next;
    if k == 0 {
      assert ops[..0] == [] && ops[0..] == ops;
    } else {
      HistorySplit(Next(fs, ops[0]), ops[1..], k - 1);
      assert ops[..k][1..] == ops[1..][..k - 1] && ops[1..][k - 1..] == ops[k..] && ops[..k][0] == ops[0];
    }
  }

  // What a mount finds

  /** After a crash, the mount scan picks the last checkpoint. Everything that it uses is as it
      was when it was committed; the bitmaps of its space manager are there. */
  lemma MountFinds(fs: Fs, landed: set<nat>, sb: Sb, bno: nat)
    requires Shape(fs) && FsInv(fs)
    ensures var disk := Landed(fs.st.disk, fs.st.dirty, landed);
      && IsSuper(disk, 0) && (Selected(fs.geo, disk, sb, bno) ==> sb == fs.st.cp)
      && Layout(fs.geo, disk, fs.st.cp, fs.st.list) && BitmapsOn(disk, fs.last.sm)
      && Agree(disk, fs.st.image, fs.UsedBy(fs.last))
  {
    hide Inv, Layout, PhaseOk, Sm.Inv, Selected, R.Partition, Dated, Landed, Sm.OwnBlocks;
    CrashSafe(fs.geo, fs.st, landed, sb, bno);
    var disk := Landed(fs.st.disk, fs.st.dirty, landed);
    forall i | 0 <= i < |fs.last.sm.chunks| && fs.last.sm.chunks[i].bmap != 0
      ensures BitmapOn(disk, fs.last.sm, i)
    {
      assert BitmapOn(fs.st.image, fs.last.sm, i);
      OwnBitmapIn(fs.last.sm, i);
      assert fs.last.sm.chunks[i].bmap in Reach(fs.geo, fs.st);
    }
  }

  lemma OwnBitmapIn(sm: Sm, i: nat)
    requires i < |sm.chunks| && sm.chunks[i].bmap != 0
    ensures sm.chunks[i].bmap in sm.OwnBlocks()
  {
  }

  /** What was saved by the last checkpoint. */
  ghost predicate SameCheckpoint(fs: Fs, fs2: Fs) {
    && fs2.geo == fs.geo && fs2.ipBm == fs.ipBm && fs2.ipBlocks == fs.ipBlocks && fs2.last == fs.last
    && fs2.st.cp == fs.st.cp && fs2.st.list == fs.st.list && fs2.st.image == fs.st.image
  }

  lemma OnlyFinish(fs: Fs, op: Op)
    requires Shape(fs) && Can(fs, op) && op != Finish
    ensures SameCheckpoint(fs, Next(fs, op))
  {
    hide Shape, TakeWrites, SpaceWrites, Sm.Alloc, Sm.QueueInsert, Sm.FlushCache, FirstFree;
  }

  lemma {:induction false} NoFinish(fs: Fs, ops: seq<Op>)
    requires IsHistory(fs, ops) && Finish !in ops
    ensures SameCheckpoint(fs, After(fs, ops))
    decreases |ops|
  {
    hide Shape, Can, Next;
    if ops != [] {
      OnlyFinish(fs, ops[0]);
      NoFinish(Next(fs, ops[0]), ops[1..]);
    }
  }

  lemma FinishSaves(fs: Fs)
    requires Shape(fs) && FsInv(fs) && fs.phase == Synced
    ensures var fs2 := Finished(fs);
      && fs2.last == fs.now && fs2.st.cp == fs.st.next && fs2.st.list == fs.st.nextList
      && fs2.geo == fs.geo && fs2.UsedBy(fs.now) == fs.UsedBy(fs.now)
      && Agree(fs2.st.image, fs.Cache(), fs.UsedBy(fs.now))
  {
    hide Inv, LastOk, Running, LocationsOk, Fs.UsedBy;
    FinishEnabled(fs);
    SameUsedBy(fs, Finished(fs), fs.now);
    assert fs.Cache() == fs.st.disk;
    forall b | b in fs.UsedBy(fs.now)
      ensures b in fs.st.disk && b != SuperBno(fs.geo, fs.st.next)
    {
      UsedOnDisk(fs, b);
    }
  }

  /** Crash atomicity of transactions: at any moment after a commit and before the next one,
      through any number of failed transactions and crashes, and with any part of the pending
      writes on disk, a mount finds the checkpoint of that commit. Every block that it uses
      has the contents that it had then, and so do its ephemeral objects. */
  lemma MountsLastCommit(fs: Fs, ops: seq<Op>, k: nat, landed: set<nat>, sb: Sb, bno: nat)
    requires FsInv(fs) && IsHistory(fs, ops) && k < |ops| && ops[k] == Finish && Finish !in ops[k + 1..]
    ensures IsHistory(fs, ops[..k]) && fs.geo.Valid() && After(fs, ops).geo.Valid()
    ensures var at, end := After(fs, ops[..k]), After(fs, ops);
      var disk := Landed(end.st.disk, end.st.dirty, landed);
      && IsSuper(disk, 0) && (Selected(end.geo, disk, sb, bno) ==> sb == at.st.next)
      && Agree(disk, at.Cache(), at.UsedBy(at.now))
      && Layout(end.geo, disk, at.st.next, at.st.nextList) && BitmapsOn(disk, at.now.sm)
  {
    hide FsInv, Can, Next, Layout, Selected, BitmapsOn, Landed, Fs.UsedBy, IsHistory, After, Shape;
    HistorySplit(fs, ops, k);
    HistoryKeeps(fs, ops[..k]);
    HistoryKeeps(fs, ops);
    var at, end := After(fs, ops[..k]), After(fs, ops);
    FinishFirst(at, ops[k..]);
    assert ops[k..][1..] == ops[k + 1..];
    NoFinish(Finished(at), ops[k + 1..]);
    FinishSaves(at);
    SameUsedBy(Finished(at), end, at.now);
    InvIsShape(end);
    ShapeValid(end);
    InvIsShape(fs);
    ShapeValid(fs);
    MountFinds(end, landed, sb, bno);
  }

  lemma ShapeValid(fs: Fs)
    requires Shape(fs)
    ensures fs.geo.Valid()
  {
  }

  lemma FinishFirst(fs: Fs, ops: seq<Op>)
    requires FsInv(fs) && IsHistory(fs, ops) && ops != [] && ops[0] == Finish
    ensures Shape(fs) && fs.phase == Synced && IsHistory(Finished(fs), ops[1..])
    ensures After(fs, ops) == After(Finished(fs), ops[1..])
  {
    hide FsInv, After, IsHistory;
    InvIsShape(fs);
    AfterOne(fs, ops);
  }

  lemma AfterOne(fs: Fs, ops: seq<Op>)
    requires IsHistory(fs, ops) && ops != []
    ensures Shape(fs) && Can(fs, ops[0]) && IsHistory(Next(fs, ops[0]), ops[1..])
    ensures After(fs, ops) == After(Next(fs, ops[0]), ops[1..])
  {
    hide Can, Next, Shape;
  }

  // A new container

  /** The bits of the first n of some blocks. */
  function FirstBits(n: nat, total: nat): (bits: seq<bool>)
    ensures |bits| == total && forall i :: 0 <= i < total ==> bits[i] == (i < n)
  {
    seq(total, i => i < n)
  }

  lemma {:induction false} FirstZeros(n: nat, total: nat)
    requires n <= total
    ensures Zeros(FirstBits(n, total)) == total - n
  {
    var bits := FirstBits(n, total);
    if total > 0 {
      assert bits[..total - 1] == FirstBits(n, total - 1);
      if n < total { FirstZeros(n, total - 1); } else { NoZeros(bits); }
    }
  }

  lemma {:induction false} NoZeros(bits: seq<bool>)
    requires forall i :: 0 <= i < |bits| ==> bits[i]
    ensures Zeros(bits) == 0
  {
    if bits != [] { NoZeros(bits[..|bits| - 1]); }
  }

  /** The sizes of the areas of a new container: block zero, the rings, two locations for one
      bitmap of the pool, the pool, and the rest. */
  datatype Sizes = Sizes(desc: nat, data: nat, maxMaps: nat, pool: nat, rest: nat) {
    predicate Valid() { desc >= 2 && data > 0 && maxMaps > 0 && pool >= 2 }

    function Geo(): Geometry { Geometry(1, desc, 1 + desc, data, maxMaps) }

    function IpBm(): nat { 1 + desc + data }

    function Pool(): nat { IpBm() + 2 }

    function Total(): nat { Pool() + pool + rest }
  }

  function NewSm(z: Sizes): Sm {
    var bits := FirstBits(z.Pool() + z.pool, z.Total());
    Sm(z.Total(), 1, z.Pool(), 1, [Chunk(z.Total(), z.rest, z.Pool(), 1)], [Cib(z.Pool() + 1, 1)],
      map[z.Pool() := bits],
       FirstBits(2, z.pool), z.rest, [], [], 0, 0)
  }

  function NewLive(z: Sizes): set<nat> { Range(0, z.Pool()) }

  lemma NewUsed(z: Sizes, b: nat)
    requires z.Valid()
    ensures var sm := NewSm(z);
      && sm.Shape() && sm.Own(b) == One(b == z.Pool() || b == z.Pool() + 1) && sm.Queued(b) == 0
      && sm.UsedBit(b) == (b < z.Pool() + 2) && (sm.InIp(b) && sm.InMain(b) ==> sm.MainBit(b))
  {
    var sm, n := NewSm(z), z.Total();
    OneOwner(sm.chunks[0], sm.cibs[0], b);
    assert sm.ChunkOf(b) == 0 <==> b < n by { Below(b, n); }
    if b < n { Below(b, n); }
  }

  lemma Below(b: nat, n: nat)
    requires n > 0
    ensures b / n == 0 <==> b < n
    ensures b < n ==> b % n == b
  {
    if b < n {
      assert 0 * n + b == b;
      DivOf(0, b, n);
    }
  }

  lemma NewSpace(z: Sizes)
    requires z.Valid()
    ensures NewSm(z).Inv(NewLive(z), 0, 0, {}, map[])
  {
    hide Sm.UsedBit, Sm.Own, Sm.Queued, Zeros, SumFree;
    var sm, live := NewSm(z), NewLive(z);
    NewUsed(z, 0);
    assert sm.Bits(0)[..z.Total()] == FirstBits(z.Pool() + z.pool, z.Total());
    FirstZeros(z.Pool() + z.pool, z.Total());
    OneFree(sm.chunks[0]);
    forall b: nat
      ensures sm.OwnedBlock(live, 0, 0, b) && (sm.InIp(b) && sm.InMain(b) ==> sm.MainBit(b))
    {
      NewUsed(z, b);
    }
  }

  lemma OneFree(c: Chunk)
    ensures SumFree([c]) == c.free
  {
    assert [c][..0] == [];
  }

  function NewDisk(z: Sizes): Disk
    requires z.Valid()
  {
    var sb := Sb(1, 0, 1, 1 % z.desc, 0, 0, 0);
    var bits := FirstBits(z.Pool() + z.pool, z.Total());
    map[0 := Super(sb), 1 := Super(sb), z.IpBm() := Bitmap(FirstBits(2, z.pool)), z.Pool() := Bitmap(bits),
      z.Pool() + 1 := Data([])]
  }

  function NewFs(z: Sizes): Fs
    requires z.Valid()
  {
    var sb, sv := Sb(1, 0, 1, 1 % z.desc, 0, 0, 0), Saved(NewSm(z), NewLive(z), [0], [1]);
    var used := {z.IpBm(), z.Pool(), z.Pool() + 1};
    Fs(z.Geo(), z.IpBm(), 2, sv, {}, Closed, sv, State(NewDisk(z), sb, used, NewDisk(z), [], map[], false, sb, []))
  }

  /** A new container is consistent, so that all that was said holds of every run from there. */
  lemma NewContainer(z: Sizes)
    requires z.Valid()
    ensures FsInv(NewFs(z))
  {
    hide Inv, Sm.Inv, R.Partition;
    var fs := NewFs(z);
    NewSpace(z);
    NewInv(z);
    NewUsedBy(z);
    assert R.Partition([1], [0], 2) by { OneEach(); }
  }

  lemma OneEach()
    ensures R.Partition([1], [0], 2)
  {
    assert [1] + [0] == [1, 0];
  }

  lemma NewUsedBy(z: Sizes)
    requires z.Valid()
    ensures NewFs(z).UsedBy(NewFs(z).last) == NewFs(z).st.used
  {
    var fs, sm := NewFs(z), NewSm(z);
    assert fs.Locations([0]) == {z.IpBm()} by { assert fs.ipBm + [0][0] in fs.Locations([0]); }
    assert sm.OwnBlocks() == {z.Pool(), z.Pool() + 1} by {
      assert sm.chunks[0].bmap == z.Pool() && sm.cibs[0].bno == z.Pool() + 1;
    }
    assert forall b :: b in NewLive(z) ==> fs.IsFixed(b);
  }

  lemma NewInv(z: Sizes)
    requires z.Valid()
    ensures Inv(z.Geo(), NewFs(z).st)
  {
    var st, geo := NewFs(z).st, z.Geo();
    assert SuperBno(geo, st.cp) == 1;
    assert DescRange(geo, 0, 1) == {1} by { assert DescRange(geo, 0, 0) == {}; }
    assert Reach(geo, st) == st.used + {1};
  }
}
