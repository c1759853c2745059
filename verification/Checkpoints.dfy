/** Checkpoints (transaction.c, object.c, super.c). A checkpoint is a run of blocks in
    the descriptor ring: the mapping blocks (cpm blocks) for the ephemeral objects, and
    then the container superblock. The objects themselves go to the data ring. */
module Checkpoints {
  import opened Arith

  type Bytes = seq<bv8>

  datatype Mapping = Mapping(oid: nat, size: nat, paddr: nat)

  /** The superblock fields that describe a checkpoint. */
  datatype Sb = Sb(xid: nat, descIndex: nat, descLen: nat, descNext: nat, dataIndex: nat, dataLen: nat, dataNext: nat)

  /** The contents of a block. Anything with a bad checksum or magic number is Torn. The
      transaction in the header of a filesystem object tells who may change it in place. */
  datatype Block =
    | Cpm(maps: seq<Mapping>)
    | Super(sb: Sb)
    | Data(bytes: Bytes)
    | Object(xid: nat, payload: Bytes)
    | Bitmap(bits: seq<bool>)
    | Torn

  type Disk = map<nat, Block>

  /** An ephemeral object: its id and its blocks. */
  datatype Eph = Eph(oid: nat, blocks: seq<Bytes>)

  datatype Status = Ok | Corrupted

  datatype Geometry = Geometry(descBase: nat, descBlks: nat, dataBase: nat, dataBlks: nat, maxMaps: nat) {
    predicate Valid() {
      && descBlks > 0 && dataBlks > 0 && maxMaps > 0 && descBase > 0 && dataBase > 0
      && (descBase + descBlks <= dataBase || dataBase + dataBlks <= descBase)
    }

    function DescBno(i: nat): (b: nat)
      requires Valid()
      ensures InDesc(b)
    {
      descBase + i % descBlks
    }

    function DataBno(i: nat): (b: nat)
      requires Valid()
      ensures InData(b)
    {
      dataBase + i % dataBlks
    }

    predicate InDesc(b: nat) { descBase <= b < descBase + descBlks }

    predicate InData(b: nat) { dataBase <= b < dataBase + dataBlks }

    function DescLimit(): nat { descBlks / 4 }

    function DataLimit(): nat { dataBlks / 4 }
  }

  // What a list of ephemeral objects looks like on disk

  /** All the blocks of the objects, in order. */
  function Stream(list: seq<Eph>): seq<Bytes> {
    if list == [] then [] else Stream(list[..|list| - 1]) + list[|list| - 1].blocks
  }

  /** The mapping for each object, which starts where the one before ends. */
  function Mappings(geo: Geometry, dataIndex: nat, list: seq<Eph>): seq<Mapping>
    requires geo.Valid()
  {
    if list == [] then []
    else
      var init, e := list[..|list| - 1], list[|list| - 1];
      Mappings(geo, dataIndex, init) + [Mapping(e.oid, |e.blocks|, geo.DataBno(dataIndex + |Stream(init)|))]
  }

  /** The mappings held by the n cpm blocks that start at a position of the ring. */
  function MapsOf(geo: Geometry, disk: Disk, descIndex: nat, n: nat): seq<Mapping>
    requires geo.Valid()
  {
    if n == 0 then []
    else
      var b := geo.DescBno(descIndex + n - 1);
      MapsOf(geo, disk, descIndex, n - 1) + if b in disk && disk[b].Cpm? then disk[b].maps else []
  }

  ghost predicate CpmsOk(geo: Geometry, disk: Disk, descIndex: nat, n: nat)
    requires geo.Valid()
  {
    forall i :: descIndex <= i < descIndex + n ==> CpmOk(geo, disk, i)
  }

  predicate CpmOk(geo: Geometry, disk: Disk, i: nat)
    requires geo.Valid()
  {
    geo.DescBno(i) in disk && disk[geo.DescBno(i)].Cpm? && |disk[geo.DescBno(i)].maps| <= geo.maxMaps
  }

  /** Position p of the checkpoint's part of the data ring holds the given block. */
  predicate Holds(geo: Geometry, disk: Disk, dataIndex: nat, p: nat, bytes: Bytes)
    requires geo.Valid()
  {
    geo.DataBno(dataIndex + p) in disk && disk[geo.DataBno(dataIndex + p)] == Data(bytes)
  }

  predicate SizesOk(list: seq<Eph>) {
    forall i :: 0 <= i < |list| ==> 1 <= |list[i].blocks| <= 2
  }

  /** The checkpoint described by these fields holds exactly this list. */
  ghost predicate Layout(geo: Geometry, disk: Disk, sb: Sb, list: seq<Eph>)
    requires geo.Valid()
  {
    && SizesOk(list) && sb.descLen > 0
    && CpmsOk(geo, disk, sb.descIndex, sb.descLen - 1)
    && MapsOf(geo, disk, sb.descIndex, sb.descLen - 1) == Mappings(geo, sb.dataIndex, list)
    && forall p :: 0 <= p < |Stream(list)| ==> Holds(geo, disk, sb.dataIndex, p, Stream(list)[p])
  }

  // Rings

  lemma RingApart(geo: Geometry, i: nat, j: nat)
    requires geo.Valid()
    ensures i != j && -(geo.dataBlks as int) < i - j < geo.dataBlks ==> geo.DataBno(i) != geo.DataBno(j)
    ensures i != j && -(geo.descBlks as int) < i - j < geo.descBlks ==> geo.DescBno(i) != geo.DescBno(j)
  {
    if i < j {
      if j - i < geo.dataBlks { ModGap(i, j - i, geo.dataBlks); }
      if j - i < geo.descBlks { ModGap(i, j - i, geo.descBlks); }
    } else if j < i {
      if i - j < geo.dataBlks { ModGap(j, i - j, geo.dataBlks); }
      if i - j < geo.descBlks { ModGap(j, i - j, geo.descBlks); }
    }
  }

  function DescRange(geo: Geometry, i: nat, n: nat): (r: set<nat>)
    requires geo.Valid()
    ensures forall b :: b in r ==> geo.InDesc(b)
  {
    if n == 0 then {} else DescRange(geo, i, n - 1) + {geo.DescBno(i + n - 1)}
  }

  function DataRange(geo: Geometry, i: nat, n: nat): (r: set<nat>)
    requires geo.Valid()
    ensures forall b :: b in r ==> geo.InData(b)
  {
    if n == 0 then {} else DataRange(geo, i, n - 1) + {geo.DataBno(i + n - 1)}
  }

  lemma {:induction false} InDescRange(geo: Geometry, i: nat, n: nat, k: nat)
    requires geo.Valid() && k < n
    ensures geo.DescBno(i + k) in DescRange(geo, i, n)
  {
    if k < n - 1 { InDescRange(geo, i, n - 1, k); }
  }

  lemma {:induction false} InDataRange(geo: Geometry, i: nat, n: nat, k: nat)
    requires geo.Valid() && k < n
    ensures geo.DataBno(i + k) in DataRange(geo, i, n)
  {
    if k < n - 1 { InDataRange(geo, i, n - 1, k); }
  }

  lemma {:induction false} NotInDescRange(geo: Geometry, i: nat, n: nat, j: nat)
    requires geo.Valid() && i + n <= j < i + geo.descBlks
    ensures geo.DescBno(j) !in DescRange(geo, i, n)
  {
    if n > 0 {
      NotInDescRange(geo, i, n - 1, j);
      RingApart(geo, i + n - 1, j);
    }
  }

  lemma {:induction false} NotInDataRange(geo: Geometry, i: nat, n: nat, j: nat)
    requires geo.Valid() && i + n <= j < i + geo.dataBlks
    ensures geo.DataBno(j) !in DataRange(geo, i, n)
  {
    if n > 0 {
      NotInDataRange(geo, i, n - 1, j);
      RingApart(geo, i + n - 1, j);
    }
  }

  /** Consecutive stretches that fit in a ring together share no block. */
  lemma {:induction false} RangesApart(geo: Geometry, i: nat, n: nat, m: nat)
    requires geo.Valid()
    ensures n + m <= geo.descBlks ==> DescRange(geo, i, n) !! DescRange(geo, i + n, m)
    ensures n + m <= geo.dataBlks ==> DataRange(geo, i, n) !! DataRange(geo, i + n, m)
  {
    if m > 0 {
      RangesApart(geo, i, n, m - 1);
      if n + m <= geo.descBlks { NotInDescRange(geo, i, n, i + n + m - 1); }
      if n + m <= geo.dataBlks { NotInDataRange(geo, i, n, i + n + m - 1); }
    }
  }

  lemma SameBno(geo: Geometry, i: nat, k: nat)
    requires geo.Valid()
    ensures geo.DescBno(i % geo.descBlks + k) == geo.DescBno(i + k)
    ensures geo.DataBno(i % geo.dataBlks + k) == geo.DataBno(i + k)
  {
    ModTwice(i, k, geo.descBlks);
    ModTwice(i, k, geo.dataBlks);
  }

  lemma {:induction false} RangeModulo(geo: Geometry, i: nat, n: nat)
    requires geo.Valid()
    ensures DescRange(geo, i % geo.descBlks, n) == DescRange(geo, i, n)
    ensures DataRange(geo, i % geo.dataBlks, n) == DataRange(geo, i, n)
  {
    hide Geometry.DescBno, Geometry.DataBno;
    if n > 0 {
      RangeModulo(geo, i, n - 1);
      SameBno(geo, i, n - 1);
    }
  }

  // Writing the data ring

  /** The latest blocks written to the ring, as many as fit in it, are intact. */
  ghost predicate Window(geo: Geometry, disk: Disk, dataIndex: nat, stream: seq<Bytes>)
    requires geo.Valid()
  {
    forall p :: 0 <= p < |stream| && p + geo.dataBlks >= |stream| ==> Holds(geo, disk, dataIndex, p, stream[p])
  }

  lemma Push(geo: Geometry, disk: Disk, dataIndex: nat, stream: seq<Bytes>, bytes: Bytes)
    requires geo.Valid() && Window(geo, disk, dataIndex, stream)
    ensures Window(geo, disk[geo.DataBno(dataIndex + |stream|) := Data(bytes)], dataIndex, stream + [bytes])
  {
    var b, n := geo.DataBno(dataIndex + |stream|), |stream|;
    forall p | 0 <= p < n && p + geo.dataBlks > n
      ensures geo.DataBno(dataIndex + p) != b && Holds(geo, disk, dataIndex, p, stream[p])
    {
      RingApart(geo, dataIndex + p, dataIndex + n);
    }
  }

  /** Everything can be read back exactly when the ring was not written around itself,
      or the blocks written on top of others were the same. */
  lemma WindowHolds(geo: Geometry, disk: Disk, dataIndex: nat, stream: seq<Bytes>)
    requires geo.Valid() && Window(geo, disk, dataIndex, stream)
    ensures |stream| <= geo.dataBlks ==> forall p :: 0 <= p < |stream| ==> Holds(geo, disk, dataIndex, p, stream[p])
    ensures |stream| > geo.dataBlks && stream[|stream| - 1] != stream[|stream| - 1 - geo.dataBlks] ==>
            !Holds(geo, disk, dataIndex, |stream| - 1 - geo.dataBlks, stream[|stream| - 1 - geo.dataBlks])
  {
    var n, m := |stream|, geo.dataBlks;
    if n > m {
      assert Holds(geo, disk, dataIndex, n - 1, stream[n - 1]);
      var i := dataIndex + n - 1 - m;
      assert (i + m) % m == i % m by {
        var q := i / m;
        assert (q + 1) * m == q * m + m;
        DivOf(q + 1, i % m, m);
      }
    }
  }

  // Writing the mapping blocks

  lemma {:induction false} MapsOfSame(geo: Geometry, disk: Disk, disk2: Disk, i: nat, n: nat)
    requires geo.Valid()
    requires forall b :: b in DescRange(geo, i, n) ==>
      (b in disk <==> b in disk2) && (b in disk ==> disk[b] == disk2[b])
    ensures MapsOf(geo, disk, i, n) == MapsOf(geo, disk2, i, n)
    ensures CpmsOk(geo, disk, i, n) ==> CpmsOk(geo, disk2, i, n)
  {
    if n > 0 {
      MapsOfSame(geo, disk, disk2, i, n - 1);
      if CpmsOk(geo, disk, i, n) {
        assert CpmsOk(geo, disk, i, n - 1);
        assert CpmOk(geo, disk, i + n - 1);
      }
    }
  }

  /** A mapping block is the last of those of the checkpoint so far. */
  lemma CpmWritten(geo: Geometry, disk: Disk, i: nat, n: nat, maps: seq<Mapping>)
    requires geo.Valid() && n < geo.descBlks && CpmsOk(geo, disk, i, n) && |maps| <= geo.maxMaps
    ensures var disk2 := disk[geo.DescBno(i + n) := Cpm(maps)];
      CpmsOk(geo, disk2, i, n + 1) && MapsOf(geo, disk2, i, n + 1) == MapsOf(geo, disk, i, n) + maps
  {
    var disk2 := disk[geo.DescBno(i + n) := Cpm(maps)];
    NotInDescRange(geo, i, n, i + n);
    MapsOfSame(geo, disk, disk2, i, n);
    assert CpmsOk(geo, disk2, i, n);
  }

  /** How many mapping blocks hold n mappings, and how many of them are in the last. */
  function CpmCount(n: nat, max: nat): nat
    requires max > 0
  {
    if n == 0 then 0 else if n <= max then 1 else 1 + CpmCount(n - max, max)
  }

  function Fill(n: nat, max: nat): (f: nat)
    requires max > 0
    ensures f <= max && (n > 0 ==> f > 0) && f <= n
  {
    if n <= max then n else Fill(n - max, max)
  }

  lemma {:induction false} CpmCountStep(n: nat, max: nat)
    requires max > 0
    ensures n > 0 && Fill(n, max) < max ==>
      CpmCount(n + 1, max) == CpmCount(n, max) && Fill(n + 1, max) == Fill(n, max) + 1
    ensures n == 0 || Fill(n, max) == max ==> CpmCount(n + 1, max) == CpmCount(n, max) + 1 && Fill(n + 1, max) == 1
    decreases n
  {
    if n > max { CpmCountStep(n - max, max); }
  }

  lemma {:induction false} CpmCountGrows(m: nat, n: nat, max: nat)
    requires max > 0 && m <= n
    ensures CpmCount(m, max) <= CpmCount(n, max)
    decreases n - m
  {
    if m < n {
      CpmCountStep(m, max);
      CpmCountGrows(m + 1, n, max);
    }
  }

  /** The data limit is reached exactly at the start of an object. */
  ghost predicate HitsLimit(geo: Geometry, list: seq<Eph>) {
    exists i :: 0 <= i < |list| && |Stream(list[..i])| == geo.DataLimit()
  }

  /** The blocks that a checkpoint takes from the rings. */
  function RingBlocks(geo: Geometry, sb: Sb): set<nat>
    requires geo.Valid()
  {
    DescRange(geo, sb.descIndex, sb.descLen) + DataRange(geo, sb.dataIndex, sb.dataLen)
  }

  lemma {:induction false} AppendEph(geo: Geometry, dataIndex: nat, list: seq<Eph>, i: nat)
    requires geo.Valid() && i < |list|
    ensures Stream(list[..i + 1]) == Stream(list[..i]) + list[i].blocks
    ensures Mappings(geo, dataIndex, list[..i + 1]) ==
            Mappings(geo, dataIndex, list[..i])
              + [Mapping(list[i].oid, |list[i].blocks|, geo.DataBno(dataIndex + |Stream(list[..i])|))]
  {
    assert list[..i + 1][..i] == list[..i];
  }

  lemma WindowSame(geo: Geometry, disk: Disk, b: nat, block: Block, dataIndex: nat, stream: seq<Bytes>)
    requires geo.Valid() && geo.InDesc(b) && Window(geo, disk, dataIndex, stream)
    ensures Window(geo, disk[b := block], dataIndex, stream)
  {
  }

  /** One more block of a stretch of the data ring. */
  lemma BlockWritten(geo: Geometry, bufs: Disk, was: Disk, start: nat, done: seq<Bytes>, block: Bytes, total: nat)
    requires geo.Valid() && Window(geo, bufs, start, done) && |done| < total
    requires Touched(bufs, was, DataRange(geo, start, total))
    ensures var bufs2 := bufs[geo.DataBno(start + |done|) := Data(block)];
      Window(geo, bufs2, start, done + [block]) && Touched(bufs2, was, DataRange(geo, start, total))
  {
    hide Window, Touched, DataRange, Geometry.DataBno;
    Push(geo, bufs, start, done, block);
    InDataRange(geo, start, total, |done|);
    TouchedBlock(bufs, was, DataRange(geo, start, total), geo.DataBno(start + |done|), Data(block));
  }

  class Container {
    const geo: Geometry
    var xid: nat
    var sb: Sb
    var bno: nat
    var list: seq<Eph>
    var bufs: Disk

    constructor (geo: Geometry, sb: Sb)
      ensures this.geo == geo && this.sb == sb && xid == sb.xid && list == [] && bufs == map[]
    {
      this.geo, this.sb, xid, bno, list, bufs := geo, sb, sb.xid, 0, [], map[];
    }

    /** apfs_write_single_ephemeral_object() */
    method WriteSingle(e: Eph, paddr: nat, ghost start: nat, ghost stream: seq<Bytes>)
      requires geo.Valid() && Window(geo, bufs, start, stream) && paddr == geo.DataBno(start + |stream|)
      modifies this`bufs
      ensures Window(geo, bufs, start, stream + e.blocks)
      ensures Touched(bufs, old(bufs), DataRange(geo, start, |stream| + |e.blocks|))
    {
      hide Window, Touched, DataRange, Geometry.DataBno;
      var idx := paddr - geo.dataBase;
      var j := 0;
      assert stream + e.blocks[..0] == stream;
      ghost var range := DataRange(geo, start, |stream| + |e.blocks|);
      TouchedNone(bufs, range);
      DataBnoIs(geo, start + |stream|);
      while j < |e.blocks|
        invariant j <= |e.blocks| && idx == (start + |stream| + j) % geo.dataBlks
        invariant Window(geo, bufs, start, stream + e.blocks[..j])
        invariant Touched(bufs, old(bufs), range)
      {
        ghost var done := stream + e.blocks[..j];
        DataBnoIs(geo, start + |done|);
        BlockWritten(geo, bufs, old(bufs), start, done, e.blocks[j], |stream| + |e.blocks|);
        assert done + [e.blocks[j]] == stream + e.blocks[..j + 1];
        ModStep(start + |done|, geo.dataBlks);
        bufs := bufs[geo.dataBase + idx := Data(e.blocks[j])];
        idx := idx + 1;
        if idx == geo.dataBlks {
          idx := 0;
        }
        j := j + 1;
      }
      assert e.blocks[..j] == e.blocks;
    }

    /** apfs_create_cpm_block(), for the position n of the new checkpoint. */
    method CreateCpmBlock(b: nat, ghost start: nat, ghost n: nat, ghost dataIndex: nat, ghost stream: seq<Bytes>)
      requires geo.Valid() && n < geo.descBlks && b == geo.DescBno(start + n)
      requires CpmsOk(geo, bufs, start, n) && Window(geo, bufs, dataIndex, stream)
      modifies this`bufs
      ensures bufs == old(bufs)[b := Cpm([])]
      ensures CpmsOk(geo, bufs, start, n + 1) && MapsOf(geo, bufs, start, n + 1) == MapsOf(geo, old(bufs), start, n)
      ensures Window(geo, bufs, dataIndex, stream)
    {
      CpmWritten(geo, bufs, start, n, []);
      WindowSame(geo, bufs, b, Cpm([]), dataIndex, stream);
      bufs := bufs[b := Cpm([])];
    }

    /** apfs_create_cpoint_map(), for the last mapping block of the new checkpoint. */
    method CreateCpointMap(b: nat, m: Mapping, ghost start: nat, ghost n: nat, ghost dataIndex: nat,
                           ghost stream: seq<Bytes>)
      returns (room: bool)
      requires geo.Valid() && n < geo.descBlks && b == geo.DescBno(start + n)
      requires CpmsOk(geo, bufs, start, n + 1) && Window(geo, bufs, dataIndex, stream)
      modifies this`bufs
      ensures b in old(bufs) && old(bufs)[b].Cpm? && room == (|old(bufs)[b].maps| < geo.maxMaps)
      ensures bufs == if room then old(bufs)[b := Cpm(old(bufs)[b].maps + [m])] else old(bufs)
      ensures room ==>
        CpmsOk(geo, bufs, start, n + 1) && MapsOf(geo, bufs, start, n + 1) == MapsOf(geo, old(bufs), start, n + 1) + [m]
      ensures room ==> Window(geo, bufs, dataIndex, stream)
    {
      assert CpmOk(geo, bufs, start + n);
      var maps := bufs[b].maps;
      room := |maps| < geo.maxMaps;
      if room {
        assert CpmsOk(geo, bufs, start, n);
        CpmWritten(geo, bufs, start, n, maps + [m]);
        WindowSame(geo, bufs, b, Cpm(maps + [m]), dataIndex, stream);
        assert MapsOf(geo, bufs, start, n) + (maps + [m]) == MapsOf(geo, bufs, start, n) + maps + [m];
        bufs := bufs[b := Cpm(maps + [m])];
      }
    }

    /** The start of a mapping block in the loop over the objects. */
    method StartCpm(i: nat, ghost was: Disk, descIndex: nat, descLen: nat, ghost dataIndex: nat, ghost dataLen: nat)
      returns (b: nat)
      requires geo.Valid() && i <= |list| && descLen < geo.descBlks
      requires Progress(geo, bufs, was, descIndex, descLen, dataIndex, dataLen, list, i)
      modifies this`bufs
      ensures b == geo.DescBno(descIndex + descLen) && b in bufs && bufs[b] == Cpm([])
      ensures Progress(geo, bufs, was, descIndex, descLen + 1, dataIndex, dataLen, list, i)
    {
      hide Stream, Mappings, MapsOf, Window, CpmsOk, Touched;
      b := geo.descBase + (descIndex + descLen) % geo.descBlks;
      ghost var rest := DataRange(geo, dataIndex, dataLen);
      TouchedMore(bufs, was, DescRange(geo, descIndex, descLen) + rest, DescRange(geo, descIndex, descLen + 1) + rest);
      TouchedBlock(bufs, was, DescRange(geo, descIndex, descLen + 1) + rest, b, Cpm([]));
      CreateCpmBlock(b, descIndex, descLen, dataIndex, Stream(list[..i]));
    }

    /** The mapping and the blocks of one object. */
    method WriteObject(i: nat, b: nat, ghost was: Disk, ghost descIndex: nat, ghost descLen: nat, dataIndex: nat,
                       dataLen: nat)
      returns (room: bool)
      requires geo.Valid() && i < |list| && 0 < descLen <= geo.descBlks && b == geo.DescBno(descIndex + descLen - 1)
      requires Progress(geo, bufs, was, descIndex, descLen, dataIndex, dataLen, list, i)
      modifies this`bufs
      ensures b in old(bufs) && old(bufs)[b].Cpm? && room == (|old(bufs)[b].maps| < geo.maxMaps)
      ensures !room ==> bufs == old(bufs)
      ensures room ==> Progress(geo, bufs, was, descIndex, descLen, dataIndex, dataLen + |list[i].blocks|, list, i + 1)
      ensures room ==> b in bufs && bufs[b].Cpm? && |bufs[b].maps| == |old(bufs)[b].maps| + 1
    {
      hide Stream, Mappings, MapsOf, Window, CpmsOk, Touched, Geometry.DataBno;
      var e := list[i];
      ghost var stream := Stream(list[..i]);
      AppendEph(geo, dataIndex, list, i);
      var dataNext := (dataIndex + dataLen) % geo.dataBlks;
      assert geo.dataBase + dataNext == geo.DataBno(dataIndex + dataLen) by { DataBnoIs(geo, dataIndex + dataLen); }
      ghost var desc, data := DescRange(geo, descIndex, descLen), DataRange(geo, dataIndex, dataLen + |e.blocks|);
      DataRangeGrows(geo, dataIndex, dataLen, dataLen + |e.blocks|);
      TouchedMore(bufs, was, desc + DataRange(geo, dataIndex, dataLen), desc + data);
      room := CreateCpointMap(b, Mapping(e.oid, |e.blocks|, geo.dataBase + dataNext), descIndex, descLen - 1,
        dataIndex, stream);
      if room {
        TouchedBlock(old(bufs), was, desc + data, b, bufs[b]);
        ghost var mid := bufs;
        WriteSingle(e, geo.dataBase + dataNext, dataIndex, stream);
        TouchedData(geo, bufs, mid, was, descIndex, descLen, dataIndex, dataLen + |e.blocks|);
      }
    }

    /** apfs_write_ephemeral_objects(). The objects can be read back, whatever they hold,
        exactly when all of their blocks fit in the data ring. */
    method WriteEphemeralObjects() returns (status: Status)
      requires geo.Valid() && geo.descBlks >= 2
      modifies this`sb, this`bno, this`bufs
      ensures status == Corrupted <==> HitsLimit(geo, list) || CpmCount(|list|, geo.maxMaps) > geo.DescLimit()
      ensures status == Corrupted ==> sb == old(sb) && bno == old(bno)
      ensures status == Ok ==> sb == NextSb(geo, old(sb), list) && bno == geo.DescBno(sb.descIndex + sb.descLen - 1)
      ensures status == Ok ==>
        Touched(bufs, old(bufs),
        DescRange(geo, sb.descIndex, sb.descLen - 1) + DataRange(geo, sb.dataIndex, sb.dataLen))
      ensures status == Ok && SizesOk(list) && |Stream(list)| <= geo.dataBlks ==> Layout(geo, bufs, sb, list)
      ensures status == Ok && |Stream(list)| > geo.dataBlks && Layout(geo, bufs, sb, list) ==>
              Stream(list)[|Stream(list)| - 1] == Stream(list)[|Stream(list)| - 1 - geo.dataBlks]
    {
      hide Stream, Mappings, MapsOf, Window, CpmCount, Fill, DescRange, DataRange, Touched, CpmsOk, Progress, Layout,
        HitsLimit,
        Geometry.DescBno, Geometry.DataBno;
      status := Ok;
      ghost var was := bufs;
      var descIndex, dataIndex := sb.descNext, sb.dataNext;
      var descLen: nat, dataLen: nat, i: nat, cpmBno: nat, open := 0, 0, 0, 0, false;
      Begin(geo, bufs, descIndex, dataIndex, list);
      while i < |list|
        invariant i <= |list| && status == Ok && sb == old(sb) && bno == old(bno)
        invariant Progress(geo, bufs, was, descIndex, descLen, dataIndex, dataLen, list, i)
        invariant descLen == CpmCount(i, geo.maxMaps) <= geo.DescLimit()
        invariant dataLen == |Stream(list[..i])| && forall k :: 0 <= k < i ==> |Stream(list[..k])| != geo.DataLimit()
        invariant open ==> i > 0 && descLen > 0 && cpmBno == geo.DescBno(descIndex + descLen - 1)
        invariant open ==> cpmBno in bufs && bufs[cpmBno].Cpm? && |bufs[cpmBno].maps| == Fill(i, geo.maxMaps)
        invariant !open ==> i == 0 || Fill(i, geo.maxMaps) == geo.maxMaps
        decreases |list| - i, open
      {
        CpmCountStep(i, geo.maxMaps);
        CpmCountGrows(i + 1, |list|, geo.maxMaps);
        if dataLen == geo.DataLimit() {
          Hit(geo, list, i);
          status := Corrupted;
          return;
        }
        if !open {
          if descLen == geo.DescLimit() {
            status := Corrupted;
            return;
          }
          cpmBno := StartCpm(i, was, descIndex, descLen, dataIndex, dataLen);
          descLen := descLen + 1;
          open := true;
        }
        AppendEph(geo, dataIndex, list, i);
        var room := WriteObject(i, cpmBno, was, descIndex, descLen, dataIndex, dataLen);
        if !room {
          open := false;
          continue;
        }
        dataLen := dataLen + |list[i].blocks|;
        i := i + 1;
      }
      assert list[..i] == list;
      NoHit(geo, list);
      bno := geo.descBase + (descIndex + descLen) % geo.descBlks;
      descLen := descLen + 1;
      assert bno == geo.DescBno(descIndex + descLen - 1) by { DescBnoIs(geo, descIndex + descLen - 1); }
      sb := Sb(sb.xid, descIndex, descLen, (descIndex + descLen) % geo.descBlks, dataIndex, dataLen,
        (dataIndex + dataLen) % geo.dataBlks);
      Finish(geo, bufs, was, sb, list);
    }

    /** apfs_read_single_ephemeral_object(), given the contents of the disk. */
    method ReadSingle(disk: Disk, m: Mapping) returns (status: Status, blocks: seq<Bytes>)
      requires geo.Valid() && geo.InData(m.paddr)
      ensures status == Ok ==> 1 <= m.size <= 2 && |blocks| == m.size
      ensures status == Ok ==> forall j :: 0 <= j < m.size ==> Holds(geo, disk, m.paddr - geo.dataBase, j, blocks[j])
      ensures status == Corrupted ==> m.size < 1 || m.size > 2 || Missing(geo, disk, m.paddr - geo.dataBase, m.size)
    {
      hide Holds, IsData, Geometry.DataBno;
      status, blocks := Ok, [];
      if m.size > 2 || m.size == 0 {
        status := Corrupted;
        return;
      }
      var start := m.paddr - geo.dataBase;
      var idx, j := start, 0;
      assert start % geo.dataBlks == start by { DivOf(0, start, geo.dataBlks); }
      while j < m.size
        invariant j <= m.size && |blocks| == j && status == Ok && idx == (start + j) % geo.dataBlks
        invariant forall k :: 0 <= k < j ==> Holds(geo, disk, start, k, blocks[k])
      {
        ReadIs(geo, disk, start, j);
        if geo.dataBase + idx !in disk || !disk[geo.dataBase + idx].Data? {
          status := Corrupted;
          return;
        }
        blocks := blocks + [disk[geo.dataBase + idx].bytes];
        ModStep(start + j, geo.dataBlks);
        idx := idx + 1;
        if idx == geo.dataBlks {
          idx := 0;
        }
        j := j + 1;
      }
    }

    /** apfs_read_single_cpm_block(), for the block at position k of the checkpoint. */
    method ReadCpmBlock(disk: Disk, b: nat, ghost k: nat, ghost want: seq<Eph>) returns (status: Status)
      requires geo.Valid() && Layout(geo, disk, sb, want) && k < sb.descLen - 1 && b == geo.DescBno(sb.descIndex + k)
      requires list <= want && |list| == |MapsOf(geo, disk, sb.descIndex, k)| <= EPHEMERAL_LIST_LIMIT
      modifies this`list
      ensures status == if |MapsOf(geo, disk, sb.descIndex, k + 1)| <= EPHEMERAL_LIST_LIMIT then Ok else Corrupted
      ensures status == Ok ==> |list| == |MapsOf(geo, disk, sb.descIndex, k + 1)| && list <= want
    {
      hide Mappings, MapsOf, CpmsOk, Stream, Holds, Geometry.DataBno, Geometry.DescBno, Layout;
      status := Ok;
      CpmPart(geo, disk, sb, want, k);
      var maps := disk[b].maps;
      var i := 0;
      ghost var first := |list|;
      while i < |maps|
        invariant i <= |maps| && |list| == first + i <= EPHEMERAL_LIST_LIMIT && list <= want && status == Ok
      {
        ghost var e := want[first + i];
        MappingsAt(geo, sb.dataIndex, want, first + i);
        ReadRight(geo, disk, sb, want, first + i);
        SizeOk(geo, disk, sb, want, first + i);
        if |list| >= EPHEMERAL_LIST_LIMIT {
          status := Corrupted;
          return;
        }
        var blocks;
        status, blocks := ReadSingle(disk, maps[i]);
        assert status == Ok && blocks == e.blocks;
        list := list + [Eph(maps[i].oid, blocks)];
        i := i + 1;
      }
    }

    /** apfs_read_ephemeral_objects(): reads back what was written. */
    method ReadEphemeralObjects(disk: Disk, ghost want: seq<Eph>) returns (status: Status)
      requires geo.Valid() && Layout(geo, disk, sb, want)
      modifies this`list
      ensures status == if |want| <= EPHEMERAL_LIST_LIMIT then Ok else Corrupted
      ensures status == Ok ==> list == want
    {
      hide Mappings, CpmsOk, Stream, Holds, Geometry.DataBno, Geometry.DescBno, Layout;
      status := Ok;
      list := [];
      assert sb.descLen > 0 by { LayoutLen(geo, disk, sb, want); }
      var k := 0;
      while k < sb.descLen - 1
        invariant k <= sb.descLen - 1 && status == Ok
        invariant list <= want && |list| == |MapsOf(geo, disk, sb.descIndex, k)| <= EPHEMERAL_LIST_LIMIT
      {
        CpmPart(geo, disk, sb, want, k);
        assert geo.descBase + (sb.descIndex + k) % geo.descBlks == geo.DescBno(sb.descIndex + k) by {
          DescBnoIs(geo, sb.descIndex + k);
        }
        status := ReadCpmBlock(disk, geo.descBase + (sb.descIndex + k) % geo.descBlks, k, want);
        if status != Ok {
          return;
        }
        k := k + 1;
      }
      LayoutLen(geo, disk, sb, want);
    }
  }

  /** How many objects the in-memory list has room for. */
  const EPHEMERAL_LIST_LIMIT := 1365

  lemma LayoutLen(geo: Geometry, disk: Disk, sb: Sb, list: seq<Eph>)
    requires geo.Valid() && Layout(geo, disk, sb, list)
    ensures sb.descLen > 0 && |MapsOf(geo, disk, sb.descIndex, sb.descLen - 1)| == |list|
  {
    MappingsLen(geo, sb.dataIndex, list);
  }

  lemma SizeOk(geo: Geometry, disk: Disk, sb: Sb, list: seq<Eph>, i: nat)
    requires geo.Valid() && Layout(geo, disk, sb, list) && i < |list|
    ensures 1 <= |list[i].blocks| <= 2
  {
  }

  lemma {:induction false} MapsPrefix(geo: Geometry, disk: Disk, i: nat, k: nat, n: nat)
    requires geo.Valid() && k <= n
    ensures MapsOf(geo, disk, i, k) <= MapsOf(geo, disk, i, n)
    decreases n
  {
    if k < n { MapsPrefix(geo, disk, i, k, n - 1); }
  }

  lemma MapsNext(geo: Geometry, disk: Disk, i: nat, k: nat)
    requires geo.Valid() && CpmOk(geo, disk, i + k)
    ensures MapsOf(geo, disk, i, k + 1) == MapsOf(geo, disk, i, k) + disk[geo.DescBno(i + k)].maps
  {
  }

  /** One mapping block holds the mappings that follow those of the blocks before it. */
  lemma CpmPart(geo: Geometry, disk: Disk, sb: Sb, list: seq<Eph>, k: nat)
    requires geo.Valid() && Layout(geo, disk, sb, list) && k < sb.descLen - 1
    ensures var b, first := geo.DescBno(sb.descIndex + k), |MapsOf(geo, disk, sb.descIndex, k)|;
      && b in disk && disk[b].Cpm?
      && |MapsOf(geo, disk, sb.descIndex, k + 1)| == first + |disk[b].maps| <= |list| ==
        |Mappings(geo, sb.dataIndex, list)|
      && forall i :: 0 <= i < |disk[b].maps| ==> disk[b].maps[i] == Mappings(geo, sb.dataIndex, list)[first + i]
  {
    hide Mappings, Stream, Holds, SizesOk, MapsOf, Geometry.DescBno;
    MappingsLen(geo, sb.dataIndex, list);
    assert CpmOk(geo, disk, sb.descIndex + k);
    var b, first := geo.DescBno(sb.descIndex + k), |MapsOf(geo, disk, sb.descIndex, k)|;
    MapsPrefix(geo, disk, sb.descIndex, k + 1, sb.descLen - 1);
    var part := MapsOf(geo, disk, sb.descIndex, k + 1);
    MapsNext(geo, disk, sb.descIndex, k);
    forall i | 0 <= i < |disk[b].maps|
      ensures disk[b].maps[i] == Mappings(geo, sb.dataIndex, list)[first + i]
    {
      assert part[first + i] == disk[b].maps[i];
    }
  }

  predicate IsData(geo: Geometry, disk: Disk, dataIndex: nat, p: nat)
    requires geo.Valid()
  {
    geo.DataBno(dataIndex + p) in disk && disk[geo.DataBno(dataIndex + p)].Data?
  }

  ghost predicate Missing(geo: Geometry, disk: Disk, dataIndex: nat, n: nat)
    requires geo.Valid()
  {
    exists j :: 0 <= j < n && !IsData(geo, disk, dataIndex, j)
  }

  lemma {:induction false} MappingsAt(geo: Geometry, dataIndex: nat, list: seq<Eph>, i: nat)
    requires geo.Valid() && i < |list|
    ensures |Mappings(geo, dataIndex, list)| == |list|
    ensures Mappings(geo, dataIndex, list)[i] ==
            Mapping(list[i].oid, |list[i].blocks|, geo.DataBno(dataIndex + |Stream(list[..i])|))
    decreases |list|
  {
    var n := |list| - 1;
    MappingsLen(geo, dataIndex, list[..n]);
    if i < n {
      MappingsAt(geo, dataIndex, list[..n], i);
      assert list[..n][..i] == list[..i];
    }
  }

  lemma {:induction false} MappingsLen(geo: Geometry, dataIndex: nat, list: seq<Eph>)
    requires geo.Valid()
    ensures |Mappings(geo, dataIndex, list)| == |list|
  {
    if list != [] { MappingsLen(geo, dataIndex, list[..|list| - 1]); }
  }

  lemma {:induction false} StreamAt(list: seq<Eph>, i: nat, j: nat)
    requires i < |list| && j < |list[i].blocks|
    ensures |Stream(list[..i])| + j < |Stream(list)| && Stream(list)[|Stream(list[..i])| + j] == list[i].blocks[j]
    decreases |list|
  {
    var n := |list| - 1;
    if i < n {
      StreamAt(list[..n], i, j);
      assert list[..n][..i] == list[..i];
    } else {
      assert list[..n] == list[..i];
    }
  }

  /** An object starts where the mapping says, even past the end of the ring. */
  lemma SamePlace(geo: Geometry, disk: Disk, i: nat, j: nat, bytes: Bytes)
    requires geo.Valid()
    ensures Holds(geo, disk, geo.DataBno(i) - geo.dataBase, j, bytes) == Holds(geo, disk, i, j, bytes)
    ensures IsData(geo, disk, geo.DataBno(i) - geo.dataBase, j) == IsData(geo, disk, i, j)
  {
    ModTwice(i, j, geo.dataBlks);
  }

  lemma ReadRight(geo: Geometry, disk: Disk, sb: Sb, list: seq<Eph>, i: nat)
    requires geo.Valid() && Layout(geo, disk, sb, list) && i < |list|
    ensures var start := geo.DataBno(sb.dataIndex + |Stream(list[..i])|) - geo.dataBase;
      && !Missing(geo, disk, start, |list[i].blocks|)
      && forall j, bytes :: 0 <= j < |list[i].blocks| && Holds(geo, disk, start, j, bytes) ==>
        bytes == list[i].blocks[j]
  {
    hide Mappings, MapsOf, CpmsOk, Stream, Holds, Geometry.DataBno;
    var p := |Stream(list[..i])|;
    var start := geo.DataBno(sb.dataIndex + p) - geo.dataBase;
    forall j | 0 <= j < |list[i].blocks|
      ensures Holds(geo, disk, start, j, list[i].blocks[j])
    {
      StreamAt(list, i, j);
      SamePlaceAt(geo, disk, sb.dataIndex, p, j, list[i].blocks[j]);
    }
    forall j | 0 <= j < |list[i].blocks|
      ensures IsData(geo, disk, start, j)
      ensures forall bytes :: Holds(geo, disk, start, j, bytes) ==> bytes == list[i].blocks[j]
    {
      HoldsOne(geo, disk, start, j, list[i].blocks[j]);
    }
  }

  lemma SamePlaceAt(geo: Geometry, disk: Disk, dataIndex: nat, p: nat, j: nat, bytes: Bytes)
    requires geo.Valid() && Holds(geo, disk, dataIndex, p + j, bytes)
    ensures Holds(geo, disk, geo.DataBno(dataIndex + p) - geo.dataBase, j, bytes)
  {
    hide Geometry.DataBno;
    SamePlace(geo, disk, dataIndex + p, j, bytes);
    assert dataIndex + (p + j) == (dataIndex + p) + j;
  }

  lemma HoldsOne(geo: Geometry, disk: Disk, start: nat, j: nat, bytes: Bytes)
    requires geo.Valid() && Holds(geo, disk, start, j, bytes)
    ensures IsData(geo, disk, start, j) && forall other :: Holds(geo, disk, start, j, other) ==> other == bytes
  {
  }

  lemma ReadIs(geo: Geometry, disk: Disk, dataIndex: nat, p: nat)
    requires geo.Valid()
    ensures var b := geo.dataBase + (dataIndex + p) % geo.dataBlks;
      IsData(geo, disk, dataIndex, p) == (b in disk && disk[b].Data?) &&
      (b in disk && disk[b].Data? ==> Holds(geo, disk, dataIndex, p, disk[b].bytes))
  {
  }

  /** What the loop over the objects has written so far. */
  ghost predicate Progress(geo: Geometry, bufs: Disk, was: Disk, descIndex: nat, descLen: nat, dataIndex: nat,
    dataLen: nat,
                           list: seq<Eph>, i: nat)
    requires geo.Valid() && i <= |list|
  {
    && CpmsOk(geo, bufs, descIndex, descLen) &&
      MapsOf(geo, bufs, descIndex, descLen) == Mappings(geo, dataIndex, list[..i])
    && Window(geo, bufs, dataIndex, Stream(list[..i])) && dataLen == |Stream(list[..i])|
    && Touched(bufs, was, DescRange(geo, descIndex, descLen) + DataRange(geo, dataIndex, dataLen))
  }

  lemma Begin(geo: Geometry, bufs: Disk, descIndex: nat, dataIndex: nat, list: seq<Eph>)
    requires geo.Valid()
    ensures Progress(geo, bufs, bufs, descIndex, 0, dataIndex, 0, list, 0) && CpmCount(0, geo.maxMaps) == 0
  {
    assert list[..0] == [];
  }

  lemma DataBnoIs(geo: Geometry, i: nat)
    requires geo.Valid()
    ensures geo.DataBno(i) == geo.dataBase + i % geo.dataBlks
  {
  }

  lemma DescBnoIs(geo: Geometry, i: nat)
    requires geo.Valid()
    ensures geo.DescBno(i) == geo.descBase + i % geo.descBlks
  {
  }

  lemma {:induction false} DataRangeGrows(geo: Geometry, i: nat, m: nat, n: nat)
    requires geo.Valid() && m <= n
    ensures DataRange(geo, i, m) <= DataRange(geo, i, n)
  {
    if m < n { DataRangeGrows(geo, i, m, n - 1); }
  }

  /** The blocks of the data ring hold no mappings. */
  lemma TouchedData(geo: Geometry, bufs: Disk, mid: Disk, was: Disk, descIndex: nat, descLen: nat, dataIndex: nat,
                    dataLen: nat)
    requires geo.Valid() && Touched(bufs, mid, DataRange(geo, dataIndex, dataLen))
    requires Touched(mid, was, DescRange(geo, descIndex, descLen) + DataRange(geo, dataIndex, dataLen))
    requires CpmsOk(geo, mid, descIndex, descLen)
    ensures Touched(bufs, was, DescRange(geo, descIndex, descLen) + DataRange(geo, dataIndex, dataLen))
    ensures CpmsOk(geo, bufs, descIndex, descLen) &&
      MapsOf(geo, bufs, descIndex, descLen) == MapsOf(geo, mid, descIndex, descLen)
    ensures forall b :: geo.InDesc(b) ==> (b in bufs <==> b in mid) && (b in bufs ==> bufs[b] == mid[b])
  {
    hide CpmsOk, MapsOf, DescRange, DataRange;
    var desc, data := DescRange(geo, descIndex, descLen), DataRange(geo, dataIndex, dataLen);
    TouchedMore(bufs, mid, data, desc + data);
    forall b | geo.InDesc(b)
      ensures (b in bufs <==> b in mid) && (b in bufs ==> bufs[b] == mid[b])
    {
      assert b !in data && (b in bufs <==> b in bufs - data) && (b in mid <==> b in mid - data);
    }
    MapsOfSame(geo, mid, bufs, descIndex, descLen);
  }

  lemma Hit(geo: Geometry, list: seq<Eph>, i: nat)
    requires i < |list| && |Stream(list[..i])| == geo.DataLimit()
    ensures HitsLimit(geo, list)
  {
  }

  lemma NoHit(geo: Geometry, list: seq<Eph>)
    requires forall k :: 0 <= k < |list| ==> |Stream(list[..k])| != geo.DataLimit()
    ensures !HitsLimit(geo, list)
  {
  }

  lemma Finish(geo: Geometry, bufs: Disk, was: Disk, sb: Sb, list: seq<Eph>)
    requires geo.Valid() && sb.descLen > 0
    requires Progress(geo, bufs, was, sb.descIndex, sb.descLen - 1, sb.dataIndex, sb.dataLen, list, |list|)
    ensures Touched(bufs, was, DescRange(geo, sb.descIndex, sb.descLen - 1) + DataRange(geo, sb.dataIndex, sb.dataLen))
    ensures SizesOk(list) && |Stream(list)| <= geo.dataBlks ==> Layout(geo, bufs, sb, list)
    ensures |Stream(list)| > geo.dataBlks && Layout(geo, bufs, sb, list) ==>
            Stream(list)[|Stream(list)| - 1] == Stream(list)[|Stream(list)| - 1 - geo.dataBlks]
  {
    hide Stream, Mappings, MapsOf, Window, CpmsOk, Touched, Holds;
    assert list[..|list|] == list;
    WindowHolds(geo, bufs, sb.dataIndex, Stream(list));
  }

  /** The superblock fields of the next checkpoint. */
  function NextSb(geo: Geometry, sb: Sb, list: seq<Eph>): Sb
    requires geo.Valid()
  {
    var descLen, dataLen := CpmCount(|list|, geo.maxMaps) + 1, |Stream(list)|;
    Sb(sb.xid, sb.descNext, descLen, (sb.descNext + descLen) % geo.descBlks,
       sb.dataNext, dataLen, (sb.dataNext + dataLen) % geo.dataBlks)
  }

  predicate Touched(m: Disk, m0: Disk, blocks: set<nat>) { m - blocks == m0 - blocks }

  lemma TouchedNone(m: Disk, blocks: set<nat>)
    ensures Touched(m, m, blocks)
  {
  }

  lemma TouchedMore(m: Disk, m0: Disk, blocks: set<nat>, more: set<nat>)
    requires Touched(m, m0, blocks) && blocks <= more
    ensures Touched(m, m0, more)
  {
    assert m - more == (m - blocks) - more && m0 - more == (m0 - blocks) - more;
  }

  lemma TouchedBlock(m: Disk, m0: Disk, blocks: set<nat>, b: nat, block: Block)
    requires Touched(m, m0, blocks) && b in blocks
    ensures Touched(m[b := block], m0, blocks)
  {
    assert m[b := block] - blocks == m - blocks;
  }

  // The limit on the data blocks

  lemma {:induction false} StreamGrows(list: seq<Eph>, i: nat)
    requires i <= |list|
    ensures |Stream(list[..i])| <= |Stream(list)|
    decreases |list|
  {
    if i < |list| {
      StreamGrows(list[..|list| - 1], i);
      assert list[..|list| - 1][..i] == list[..i];
    } else {
      assert list[..i] == list;
    }
  }

  /** An object of two blocks starts right below the limit, so that it is never seen. */
  ghost predicate JumpsLimit(geo: Geometry, list: seq<Eph>) {
    exists i :: 0 <= i < |list| && |Stream(list[..i])| + 1 == geo.DataLimit() && |list[i].blocks| == 2
  }

  /** Both limits are a quarter of their rings. */
  lemma LimitsAre(geo: Geometry, n: nat)
    ensures n <= geo.DataLimit() <==> 4 * n <= geo.dataBlks
    ensures n <= geo.DescLimit() <==> 4 * n <= geo.descBlks
  {
  }

  /** A checkpoint that is not refused stays within a quarter of the data ring exactly
      when no object jumps the limit; with single-block objects, none can. */
  lemma QuarterLimit(geo: Geometry, list: seq<Eph>)
    requires SizesOk(list) && !HitsLimit(geo, list)
    ensures |Stream(list)| <= geo.DataLimit() <==> !JumpsLimit(geo, list)
    ensures 4 * |Stream(list)| <= geo.dataBlks <==> !JumpsLimit(geo, list)
    ensures (forall i :: 0 <= i < |list| ==> |list[i].blocks| == 1) ==> |Stream(list)| <= geo.DataLimit()
  {
    hide Stream;
    if JumpsLimit(geo, list) {
      var i :| 0 <= i < |list| && |Stream(list[..i])| + 1 == geo.DataLimit() && |list[i].blocks| == 2;
      StreamNext(list, i);
      StreamGrows(list, i + 1);
    } else {
      WithinLimit(geo, list, |list|);
      assert list[..|list|] == list;
    }
  }

  lemma StreamNext(list: seq<Eph>, i: nat)
    requires i < |list|
    ensures |Stream(list[..i + 1])| == |Stream(list[..i])| + |list[i].blocks|
  {
    assert list[..i + 1][..i] == list[..i];
  }

  lemma {:induction false} WithinLimit(geo: Geometry, list: seq<Eph>, i: nat)
    requires SizesOk(list) && !HitsLimit(geo, list) && !JumpsLimit(geo, list) && i <= |list|
    ensures |Stream(list[..i])| <= geo.DataLimit()
    decreases i
  {
    if i == 0 {
      assert list[..0] == [];
    } else {
      WithinLimit(geo, list, i - 1);
      assert list[..i][..i - 1] == list[..i - 1];
    }
  }

  /** What a checkpoint takes from the data ring is apart from what the one before it took
      exactly when both fit in there together. */
  lemma OverlapIff(geo: Geometry, i: nat, n: nat, m: nat)
    requires geo.Valid() && n > 0 && m > 0
    ensures DataRange(geo, i, n) !! DataRange(geo, i + n, m) <==> n + m <= geo.dataBlks
  {
    hide DataRange, DescRange, Geometry.DataBno;
    if n + m <= geo.dataBlks {
      RangesApart(geo, i, n, m);
    } else {
      var k := if n > geo.dataBlks then n - geo.dataBlks else 0;
      InDataRange(geo, i, n, k);
      InDataRange(geo, i + n, m, k + geo.dataBlks - n);
      AroundRing(geo, i + k);
      assert geo.DataBno(i + k + geo.dataBlks) == geo.DataBno(i + n + (k + geo.dataBlks - n));
    }
  }

  lemma AroundRing(geo: Geometry, i: nat)
    requires geo.Valid()
    ensures geo.DataBno(i + geo.dataBlks) == geo.DataBno(i)
  {
    ModAround(i, geo.dataBlks);
  }

  /** Three objects that jump the limit: if they are written by two commits in a row, the
      second one goes over the first. */
  lemma JumpOverlap(a: Bytes)
    ensures var geo, list := Geometry(8, 8, 16, 8, 4), [Eph(1, [a]), Eph(2, [a, a]), Eph(3, [a, a])];
      && SizesOk(list) && !HitsLimit(geo, list) && CpmCount(|list|, 4) <= geo.DescLimit()
      && !(DataRange(geo, 0, |Stream(list)|) !! DataRange(geo, |Stream(list)|, |Stream(list)|))
  {
    hide DataRange, DescRange;
    var geo, list := Geometry(8, 8, 16, 8, 4), [Eph(1, [a]), Eph(2, [a, a]), Eph(3, [a, a])];
    assert list[..1][..0] == [] && list[..2][..1] == list[..1] && list[..3] == list && list[..3][..2] == list[..2];
    assert |Stream(list[..0])| == 0 && |Stream(list[..1])| == 1 && |Stream(list[..2])| == 3 && |Stream(list)| == 5;
    OverlapIff(geo, 0, 5, 5);
  }

  /** Five objects that jump the limit of an eight-block ring, and then go around it: the
      first object ends up under the last block of the last one. */
  lemma JumpExample(a: Bytes, b: Bytes)
    ensures var geo, list := Geometry(8, 8, 16, 8, 4), JumpList(a, b);
      && SizesOk(list) && !HitsLimit(geo, list) && CpmCount(|list|, 4) <= geo.DescLimit()
      && |Stream(list)| == 9 > geo.dataBlks && Stream(list)[0] == a && Stream(list)[8] == b
  {
    var list := JumpList(a, b);
    StreamSteps(list);
    assert CpmCount(5, 4) == 2;
  }

  function JumpList(a: Bytes, b: Bytes): seq<Eph> {
    [Eph(1, [a]), Eph(2, [a, a]), Eph(3, [a, a]), Eph(4, [a, a]), Eph(5, [a, b])]
  }

  lemma StreamSteps(list: seq<Eph>)
    requires |list| == 5
    ensures |Stream(list[..0])| == 0
    ensures Stream(list[..1]) == list[0].blocks
    ensures Stream(list[..2]) == list[0].blocks + list[1].blocks
    ensures Stream(list[..3]) == list[0].blocks + list[1].blocks + list[2].blocks
    ensures Stream(list[..4]) == list[0].blocks + list[1].blocks + list[2].blocks + list[3].blocks
    ensures Stream(list) == list[0].blocks + list[1].blocks + list[2].blocks + list[3].blocks + list[4].blocks
  {
    assert list[..1][..0] == [] && list[..2][..1] == list[..1] && list[..3][..2] == list[..2] &&
      list[..4][..3] == list[..3];
  }
}
