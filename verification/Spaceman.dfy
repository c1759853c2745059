/** The space manager (spaceman.c). Blocks are handed out from the bitmaps of the
    chunks. Those bitmaps, and the chunk-info blocks (cibs) that point to them, are
    themselves copied to new blocks of the internal pool (ip) the first time that a
    transaction changes them. Freed blocks wait in a free queue until the start of
    the next transaction. */
module Spaceman {
  import opened Arith
  import opened Bitmaps

  datatype Chunk = Chunk(size: nat, free: nat, bmap: nat, xid: nat)

  datatype Cib = Cib(bno: nat, xid: nat)

  datatype FqRec = FqRec(xid: nat, bno: nat, len: nat) {
    predicate Covers(b: nat) { bno <= b < bno + len }
  }

  datatype Status = Ok | NoSpace | Corrupted

  function One(p: bool): nat { if p then 1 else 0 }

  /** How many queue records hold the block. */
  function Times(q: seq<FqRec>, b: nat): nat {
    if q == [] then 0 else Times(q[..|q| - 1], b) + One(q[|q| - 1].Covers(b))
  }

  function BmapTimes(chunks: seq<Chunk>, b: nat): nat {
    if chunks == [] then 0 else BmapTimes(chunks[..|chunks| - 1], b) + One(chunks[|chunks| - 1].bmap == b)
  }

  function CibTimes(cibs: seq<Cib>, b: nat): nat {
    if cibs == [] then 0 else CibTimes(cibs[..|cibs| - 1], b) + One(cibs[|cibs| - 1].bno == b)
  }

  function SumFree(chunks: seq<Chunk>): nat {
    if chunks == [] then 0 else SumFree(chunks[..|chunks| - 1]) + chunks[|chunks| - 1].free
  }

  /** Index of the first record after those whose key is not above (xid, bno). */
  function Position(q: seq<FqRec>, xid: nat, bno: nat): (p: nat)
    ensures p <= |q|
    ensures p > 0 ==> q[p - 1].xid < xid || (q[p - 1].xid == xid && q[p - 1].bno <= bno)
    ensures forall k :: p <= k < |q| ==> q[k].xid > xid || (q[k].xid == xid && q[k].bno > bno)
  {
    if q == [] then 0
    else if q[|q| - 1].xid < xid || (q[|q| - 1].xid == xid && q[|q| - 1].bno <= bno) then |q|
    else Position(q[..|q| - 1], xid, bno)
  }

  /** Index of the last record of a transaction, or -1. */
  function LastOf(q: seq<FqRec>, xid: nat): (k: int)
    ensures -1 <= k < |q|
    ensures k >= 0 ==> q[k].xid == xid
    ensures forall j :: k < j < |q| ==> q[j].xid != xid
  {
    if q == [] then -1
    else if q[|q| - 1].xid == xid then |q| - 1
    else LastOf(q[..|q| - 1], xid)
  }

  /** The space manager as the current transaction sees it. */
  datatype Sm = Sm(nbits: nat, perCib: nat, ipBase: nat, xid: nat,
                   chunks: seq<Chunk>, cibs: seq<Cib>, disk: map<nat, seq<bool>>, ipUsed: seq<bool>, freeCount: nat,
                   ipQueue: seq<FqRec>, mainQueue: seq<FqRec>, cacheBase: nat, cacheCnt: nat)
  {
    predicate InIp(b: nat) { ipBase <= b < ipBase + |ipUsed| }

    function ChunkOf(b: nat): nat
      requires nbits > 0
    {
      b / nbits
    }

    function BitOf(b: nat): nat
      requires nbits > 0
    {
      b % nbits
    }

    function Addr(i: nat, k: nat): nat { i * nbits + k }

    function Bits(i: nat): (bits: seq<bool>)
      requires Shape() && i < |chunks|
      ensures |bits| == nbits
    {
      if chunks[i].bmap == 0 then Clear(nbits) else disk[chunks[i].bmap]
    }

    predicate InMain(b: nat)
      requires nbits > 0
    {
      ChunkOf(b) < |chunks| && BitOf(b) < chunks[ChunkOf(b)].size
    }

    predicate MainBit(b: nat)
      requires Shape() && InMain(b)
    {
      Bits(ChunkOf(b))[BitOf(b)]
    }

    predicate UsedBit(b: nat)
      requires Shape()
    {
      if InIp(b) then ipUsed[b - ipBase] else InMain(b) && MainBit(b)
    }

    /** Waiting to be freed: in one of the queues, or in the cached range. */
    function Queued(b: nat): nat {
      Times(ipQueue, b) + Times(mainQueue, b) + One(cacheBase <= b < cacheBase + cacheCnt)
    }

    /** The space manager's own references to a block. */
    function Own(b: nat): nat { (if b == 0 then 0 else BmapTimes(chunks, b)) + CibTimes(cibs, b) }

    function CibOf(i: nat): nat
      requires perCib > 0
    {
      i / perCib
    }

    ghost predicate Shape() {
      && nbits > 0 && perCib > 0 && ipBase > 0 && |ipUsed| > 0
      && (forall i :: 0 <= i < |chunks| ==> chunks[i].size <= nbits && CibOf(i) < |cibs|)
      && (forall i :: 0 <= i < |chunks| && chunks[i].bmap != 0 ==>
        chunks[i].bmap in disk && |disk[chunks[i].bmap]| == nbits)
    }

    ghost predicate Counted()
      requires Shape()
    {
      && (forall i :: 0 <= i < |chunks| ==> chunks[i].free == Zeros(Bits(i)[..chunks[i].size]))
      && freeCount == SumFree(chunks)
    }

    /** Every used block has exactly one owner: the rest of the filesystem, the space
        manager itself, or the queues. No free block has any. While a queue record is
        being flushed, its blocks [lo, hi) have already been freed. */
    ghost predicate Owned(live: set<nat>, lo: nat, hi: nat)
      requires Shape()
    {
      forall b: nat :: OwnedBlock(live, lo, hi, b)
    }

    ghost predicate OwnedBlock(live: set<nat>, lo: nat, hi: nat, b: nat)
      requires Shape()
    {
      && One(UsedBit(b)) + One(lo <= b < hi) == One(b in live) + Own(b) + Queued(b)
      && One(lo <= b < hi) <= Queued(b)
    }

    ghost predicate CacheOk() { cacheBase == 0 <==> cacheCnt == 0 }

    /** The blocks of the pool are marked as used in the chunks for good, so that only
        the space manager gets them; block zero is always in use. */
    ghost predicate PoolReserved(live: set<nat>)
      requires Shape()
    {
      && 0 in live && (forall b :: b in live ==> !InIp(b))
      && (forall b: nat :: InIp(b) && InMain(b) ==> MainBit(b))
      && (forall i :: 0 <= i < |chunks| && chunks[i].bmap != 0 ==> InIp(chunks[i].bmap))
      && (forall k :: 0 <= k < |cibs| ==> InIp(cibs[k].bno))
    }

    /** Nothing is newer than the transaction, and the queues are in its order. */
    ghost predicate Dated() {
      && (forall i :: 0 <= i < |chunks| ==> chunks[i].xid <= xid)
      && (forall k :: 0 <= k < |cibs| ==> cibs[k].xid <= xid)
      && InOrder(ipQueue, xid) && InOrder(mainQueue, xid)
      && Sided(ipQueue, true) && Sided(mainQueue, false) && (cacheCnt > 0 ==> OneSided(cacheBase, cacheCnt))
    }

    /** The range is either in the pool or outside, as a whole. */
    predicate OneSided(bno: nat, cnt: nat) {
      if InIp(bno) then bno + cnt <= ipBase + |ipUsed| else bno + cnt <= ipBase || bno >= ipBase + |ipUsed|
    }

    ghost predicate Sided(q: seq<FqRec>, ip: bool) {
      forall k :: 0 <= k < |q| ==> InIp(q[k].bno) == ip && OneSided(q[k].bno, q[k].len)
    }

    /** Nothing that the last checkpoint uses may be reused or written to. */
    ghost predicate Protects(committed: set<nat>, kept: map<nat, seq<bool>>)
      requires Shape()
    {
      && (forall b :: b in committed ==> UsedBit(b))
      && OldSpares(ipQueue, xid, committed) && OldSpares(mainQueue, xid, committed)
      && (forall i :: 0 <= i < |chunks| && chunks[i].bmap in committed ==> chunks[i].bmap == 0 || chunks[i].xid < xid)
      && (forall k :: 0 <= k < |cibs| && cibs[k].bno in committed ==> cibs[k].xid < xid)
      && (forall b :: b in committed && b in kept ==> b in disk && disk[b] == kept[b])
    }

    ghost predicate Inv(live: set<nat>, lo: nat, hi: nat, committed: set<nat>, kept: map<nat, seq<bool>>) {
      && Shape() && CacheOk() && PoolReserved(live) && Dated()
      && Counted() && Owned(live, lo, hi) && Protects(committed, kept)
    }

    // The free queues

    /** apfs_free_queue_try_insert() */
    function Enqueue(bno: nat, cnt: nat): (s: Sm)
      ensures s == this.(ipQueue := s.ipQueue, mainQueue := s.mainQueue)
    {
      var r := FqRec(xid, bno, cnt);
      if InIp(bno) then this.(ipQueue := Inserted(ipQueue, r)) else this.(mainQueue := Inserted(mainQueue, r))
    }

    /** apfs_free_queue_insert() */
    function QueueInsert(bno: nat, cnt: nat): (s: Sm)
      ensures s == this.(ipQueue := s.ipQueue, mainQueue := s.mainQueue, cacheBase := s.cacheBase,
        cacheCnt := s.cacheCnt)
    {
      if cacheBase == 0 then this.(cacheBase := bno, cacheCnt := cnt)
      else if InIp(bno) == InIp(cacheBase) && bno == cacheBase + cacheCnt then this.(cacheCnt := cacheCnt + cnt)
      else if InIp(bno) == InIp(cacheBase) && bno + cnt == cacheBase
        then this.(cacheBase := bno, cacheCnt := cacheCnt + cnt)
      else Enqueue(cacheBase, cacheCnt).(cacheBase := bno, cacheCnt := cnt)
    }

    /** The last update to the queues before a commit. */
    function FlushCache(): Sm {
      if cacheBase == 0 then this else Enqueue(cacheBase, cacheCnt).(cacheBase := 0, cacheCnt := 0)
    }

    // Copy-on-write of the manager's own blocks

    /** apfs_ip_find_free(): a free block of the pool, or 0 if it is full. */
    function IpFindFree(): (n: nat)
      ensures n != 0 ==> InIp(n) && !ipUsed[n - ipBase]
    {
      if FindZero(ipUsed) < |ipUsed| then ipBase + FindZero(ipUsed) else 0
    }

    predicate OldBitmap(i: nat)
      requires i < |chunks|
    {
      chunks[i].bmap == 0 || chunks[i].xid < xid
    }

    function MoveBitmap(i: nat): (s: Sm)
      requires Shape() && i < |chunks| && IpFindFree() != 0
      ensures s == this.(ipQueue := s.ipQueue, mainQueue := s.mainQueue, cacheBase := s.cacheBase,
        cacheCnt := s.cacheCnt,
                         ipUsed := s.ipUsed, disk := s.disk, chunks := s.chunks)
    {
      var n := IpFindFree();
      var s := if chunks[i].bmap == 0 then this else QueueInsert(chunks[i].bmap, 1);
      s.(ipUsed := ipUsed[n - ipBase := true], disk := disk[n := Bits(i)],
         chunks := chunks[i := chunks[i].(bmap := n, xid := xid)])
    }

    function MoveCib(k: nat): (s: Sm)
      requires k < |cibs| && IpFindFree() != 0
      ensures s == this.(ipQueue := s.ipQueue, mainQueue := s.mainQueue, cacheBase := s.cacheBase,
        cacheCnt := s.cacheCnt,
                         ipUsed := s.ipUsed, cibs := s.cibs)
    {
      var n := IpFindFree();
      QueueInsert(cibs[k].bno, 1).(ipUsed := ipUsed[n - ipBase := true], cibs := cibs[k := Cib(n, xid)])
    }

    /** The change to a chunk's bitmap and to the two counts. */
    function SetBit(i: nat, k: nat, v: bool): (s: Sm)
      requires Shape() && i < |chunks| && k < nbits && (v ==> chunks[i].free > 0 && freeCount > 0)
    {
      var d := if v then -1 else 1;
      this.(disk := disk[chunks[i].bmap := Bits(i)[k := v]],
            chunks := chunks[i := chunks[i].(free := chunks[i].free + d)], freeCount := freeCount + d)
    }

    /** How many pool blocks a change to the chunk takes. */
    function Need(i: nat): nat
      requires Shape() && i < |chunks|
    {
      One(OldBitmap(i)) + One(cibs[CibOf(i)].xid < xid)
    }

    function OwnBitmap(i: nat): (s: Sm)
      requires Shape() && i < |chunks|
      ensures s == this.(ipQueue := s.ipQueue, mainQueue := s.mainQueue, cacheBase := s.cacheBase,
        cacheCnt := s.cacheCnt,
                         ipUsed := s.ipUsed, disk := s.disk, chunks := s.chunks)
      ensures s.Shape() && |s.chunks| == |chunks|
    {
      if OldBitmap(i) && IpFindFree() != 0 then MoveBitmap(i) else this
    }

    function OwnCib(k: nat): (s: Sm)
      requires Shape() && k < |cibs|
      ensures s == this.(ipQueue := s.ipQueue, mainQueue := s.mainQueue, cacheBase := s.cacheBase,
        cacheCnt := s.cacheCnt,
                         ipUsed := s.ipUsed, cibs := s.cibs)
      ensures s.Shape()
    {
      if cibs[k].xid < xid && IpFindFree() != 0 then MoveCib(k) else this
    }

    /** Copies the chunk's bitmap and its cib, unless this transaction already has. */
    function Prepare(i: nat): (s: Sm)
      requires Shape() && i < |chunks|
      ensures s.Shape() && |s.chunks| == |chunks| && s.nbits == nbits && s.freeCount == freeCount
    {
      OwnBitmap(i).OwnCib(CibOf(i))
    }

    /** A block is taken from the chunk, which has some free. */
    function Alloc(i: nat): Sm
      requires Shape() && i < |chunks|
    {
      var s := Prepare(i);
      var k := FindZero(s.Bits(i));
      if k < nbits && s.chunks[i].free > 0 && freeCount > 0 then s.SetBit(i, k, true) else s
    }

    /** A block is returned to its chunk. */
    function Free(b: nat): Sm
      requires Shape() && ChunkOf(b) < |chunks|
    {
      Prepare(ChunkOf(b)).SetBit(ChunkOf(b), BitOf(b), false)
    }

    /** apfs_ip_mark_free() */
    function IpMarkFree(b: nat): Sm
      requires InIp(b)
    {
      this.(ipUsed := ipUsed[b - ipBase := false])
    }

    /** The removal of a record from one of the queues. */
    function Dequeue(ip: bool, k: nat): Sm
      requires k < |if ip then ipQueue else mainQueue|
    {
      if ip then this.(ipQueue := Without(ipQueue, k)) else this.(mainQueue := Without(mainQueue, k))
    }

    /** The blocks that the space manager itself is using. */
    function OwnBlocks(): set<nat> {
      (set i | 0 <= i < |chunks| && chunks[i].bmap != 0 :: chunks[i].bmap) + (set k | 0 <= k < |cibs| :: cibs[k].bno)
    }
  }

  function Without(q: seq<FqRec>, k: nat): seq<FqRec>
    requires k < |q|
  {
    q[..k] + q[k + 1..]
  }

  /** A queue of the transaction xid, oldest first. */
  ghost predicate InOrder(q: seq<FqRec>, xid: nat) {
    && (forall k :: 0 <= k < |q| ==> 0 < q[k].xid <= xid && q[k].bno > 0 && q[k].len > 0)
    && (forall j, k :: 0 <= j < k < |q| ==> q[j].xid <= q[k].xid)
  }

  ghost predicate OldSpares(q: seq<FqRec>, xid: nat, committed: set<nat>) {
    forall k, b :: 0 <= k < |q| && q[k].xid < xid && b in committed ==> !q[k].Covers(b)
  }

  function Inserted(q: seq<FqRec>, r: FqRec): seq<FqRec> {
    var p := Position(q, r.xid, r.bno);
    q[..p] + [r] + q[p..]
  }

  // Counting lemmas

  lemma {:induction false} TimesConcat(q: seq<FqRec>, r: seq<FqRec>, b: nat)
    ensures Times(q + r, b) == Times(q, b) + Times(r, b)
  {
    if r == [] {
      assert q + r == q;
    } else {
      assert (q + r)[..|q + r| - 1] == q + r[..|r| - 1];
      TimesConcat(q, r[..|r| - 1], b);
    }
  }

  lemma TimesInserted(q: seq<FqRec>, p: nat, r: FqRec, b: nat)
    requires p <= |q|
    ensures Times(q[..p] + [r] + q[p..], b) == Times(q, b) + One(r.Covers(b))
  {
    TimesConcat(q[..p] + [r], q[p..], b);
    TimesConcat(q[..p], [r], b);
    TimesConcat(q[..p], q[p..], b);
    assert q == q[..p] + q[p..];
    assert Times([r], b) == One(r.Covers(b)) by { assert [r][..0] == []; }
  }

  lemma TimesRemoved(q: seq<FqRec>, k: nat, b: nat)
    requires k < |q|
    ensures Times(q, b) == Times(q[..k] + q[k + 1..], b) + One(q[k].Covers(b))
  {
    var t := q[..k] + q[k + 1..];
    TimesInserted(t, k, q[k], b);
    assert q == t[..k] + [q[k]] + t[k..];
  }

  lemma {:induction false} BmapTimesUpdate(chunks: seq<Chunk>, i: nat, c: Chunk, b: nat)
    requires i < |chunks|
    ensures BmapTimes(chunks[i := c], b) + One(chunks[i].bmap == b) == BmapTimes(chunks, b) + One(c.bmap == b)
    decreases |chunks|
  {
    var n, t := |chunks| - 1, chunks[i := c];
    if i < n {
      BmapTimesUpdate(chunks[..n], i, c, b);
      assert t[..n] == chunks[..n][i := c];
    } else {
      assert t[..n] == chunks[..n];
    }
  }

  lemma {:induction false} BmapTimesMember(chunks: seq<Chunk>, i: nat)
    requires i < |chunks|
    ensures BmapTimes(chunks, chunks[i].bmap) > 0
    decreases |chunks|
  {
    if i < |chunks| - 1 { BmapTimesMember(chunks[..|chunks| - 1], i); }
  }

  lemma {:induction false} CibTimesUpdate(cibs: seq<Cib>, k: nat, c: Cib, b: nat)
    requires k < |cibs|
    ensures CibTimes(cibs[k := c], b) + One(cibs[k].bno == b) == CibTimes(cibs, b) + One(c.bno == b)
    decreases |cibs|
  {
    var n, t := |cibs| - 1, cibs[k := c];
    if k < n {
      CibTimesUpdate(cibs[..n], k, c, b);
      assert t[..n] == cibs[..n][k := c];
    } else {
      assert t[..n] == cibs[..n];
    }
  }

  lemma {:induction false} SumFreeUpdate(chunks: seq<Chunk>, i: nat, c: Chunk)
    requires i < |chunks|
    ensures SumFree(chunks[i := c]) + chunks[i].free == SumFree(chunks) + c.free
    decreases |chunks|
  {
    var n, t := |chunks| - 1, chunks[i := c];
    if i < n {
      SumFreeUpdate(chunks[..n], i, c);
      assert t[..n] == chunks[..n][i := c];
    } else {
      assert t[..n] == chunks[..n];
    }
  }

  lemma {:induction false} BmapTimesTwice(chunks: seq<Chunk>, i: nat, j: nat)
    requires i < j < |chunks| && chunks[i].bmap == chunks[j].bmap
    ensures BmapTimes(chunks, chunks[i].bmap) > 1
    decreases |chunks|
  {
    var n := |chunks| - 1;
    if j < n { BmapTimesTwice(chunks[..n], i, j); } else { BmapTimesMember(chunks[..n], i); }
  }

  lemma {:induction false} CibTimesMember(cibs: seq<Cib>, k: nat)
    requires k < |cibs|
    ensures CibTimes(cibs, cibs[k].bno) > 0
    decreases |cibs|
  {
    if k < |cibs| - 1 { CibTimesMember(cibs[..|cibs| - 1], k); }
  }

  // Queue lemmas

  lemma EnqueueCounts(sm: Sm, bno: nat, cnt: nat, b: nat)
    ensures sm.Enqueue(bno, cnt).Queued(b) == sm.Queued(b) + One(bno <= b < bno + cnt)
  {
    TimesInserted(sm.ipQueue, Position(sm.ipQueue, sm.xid, bno), FqRec(sm.xid, bno, cnt), b);
    TimesInserted(sm.mainQueue, Position(sm.mainQueue, sm.xid, bno), FqRec(sm.xid, bno, cnt), b);
  }

  /** A queued range counts once for each of its blocks, however it is stored. */
  lemma QueueInsertCounts(sm: Sm, bno: nat, cnt: nat, b: nat)
    requires sm.CacheOk() && bno > 0 && cnt > 0
    ensures sm.QueueInsert(bno, cnt).CacheOk()
    ensures sm.QueueInsert(bno, cnt).Queued(b) == sm.Queued(b) + One(bno <= b < bno + cnt)
  {
    hide Times;
    EnqueueCounts(sm, sm.cacheBase, sm.cacheCnt, b);
  }

  lemma InsertedAt(q: seq<FqRec>, r: FqRec, k: nat)
    requires k <= |q|
    ensures |Inserted(q, r)| == |q| + 1 && Position(q, r.xid, r.bno) <= |q|
    ensures Inserted(q, r)[k] == var p := Position(q, r.xid, r.bno);
                                 if k < p then q[k] else if k == p then r else q[k - 1]
  {
    hide Position;
  }

  lemma InsertedInOrder(q: seq<FqRec>, r: FqRec)
    requires InOrder(q, r.xid) && r.xid > 0 && r.bno > 0 && r.len > 0
    ensures InOrder(Inserted(q, r), r.xid)
  {
    hide Position, Inserted;
    var t, p := Inserted(q, r), Position(q, r.xid, r.bno);
    InsertedAt(q, r, 0);
    forall k | 0 <= k < |t|
      ensures 0 < t[k].xid <= r.xid && t[k].bno > 0 && t[k].len > 0
      ensures k >= p ==> t[k].xid == r.xid
      ensures k < p ==> t[k] == q[k]
    {
      InsertedAt(q, r, k);
    }
  }

  lemma InsertedSpares(q: seq<FqRec>, r: FqRec, committed: set<nat>)
    requires OldSpares(q, r.xid, committed)
    ensures OldSpares(Inserted(q, r), r.xid, committed)
  {
    hide Position, Inserted;
    InsertedAt(q, r, 0);
    forall k | 0 <= k < |Inserted(q, r)|
      ensures Inserted(q, r)[k] == r || Inserted(q, r)[k] in q
    {
      InsertedAt(q, r, k);
    }
  }

  lemma InsertedSided(sm: Sm, q: seq<FqRec>, r: FqRec, ip: bool)
    requires sm.Sided(q, ip) && sm.InIp(r.bno) == ip && sm.OneSided(r.bno, r.len)
    ensures sm.Sided(Inserted(q, r), ip)
  {
    hide Position, Inserted, Sm.OneSided;
    InsertedAt(q, r, 0);
    forall k | 0 <= k < |Inserted(q, r)|
      ensures Inserted(q, r)[k] == r || Inserted(q, r)[k] in q
    {
      InsertedAt(q, r, k);
    }
  }

  lemma EnqueueInOrder(sm: Sm, bno: nat, cnt: nat)
    requires sm.Dated() && sm.xid > 0 && bno > 0 && cnt > 0 && sm.OneSided(bno, cnt)
    ensures sm.Enqueue(bno, cnt).Dated()
  {
    hide InOrder, Sm.OneSided, Sm.Sided, Inserted;
    var r := FqRec(sm.xid, bno, cnt);
    var s, q := sm.Enqueue(bno, cnt), if sm.InIp(bno) then sm.ipQueue else sm.mainQueue;
    InsertedInOrder(q, r);
    InsertedSided(sm, q, r, sm.InIp(bno));
    SameSided(sm, s, s.ipQueue, true);
    SameSided(sm, s, s.mainQueue, false);
    SameOneSided(sm, s, s.cacheBase, s.cacheCnt);
  }

  lemma SameSided(sm: Sm, s: Sm, q: seq<FqRec>, ip: bool)
    requires sm.ipBase == s.ipBase && |sm.ipUsed| == |s.ipUsed|
    ensures sm.Sided(q, ip) == s.Sided(q, ip)
  {
  }

  lemma SameOneSided(sm: Sm, s: Sm, bno: nat, cnt: nat)
    requires sm.ipBase == s.ipBase && |sm.ipUsed| == |s.ipUsed|
    ensures sm.OneSided(bno, cnt) == s.OneSided(bno, cnt)
  {
  }

  lemma QueueInsertInOrder(sm: Sm, bno: nat, cnt: nat, committed: set<nat>)
    requires sm.Dated() && sm.CacheOk() && sm.xid > 0 && |sm.ipUsed| > 0 && sm.OneSided(bno, cnt)
    ensures sm.QueueInsert(bno, cnt).Dated()
    ensures OldSpares(sm.ipQueue, sm.xid, committed) ==> OldSpares(sm.QueueInsert(bno, cnt).ipQueue, sm.xid, committed)
    ensures OldSpares(sm.mainQueue, sm.xid, committed) ==>
      OldSpares(sm.QueueInsert(bno, cnt).mainQueue, sm.xid, committed)
  {
    hide InOrder, OldSpares, Inserted;
    if sm.cacheBase > 0 {
      var r := FqRec(sm.xid, sm.cacheBase, sm.cacheCnt);
      EnqueueInOrder(sm, sm.cacheBase, sm.cacheCnt);
      if OldSpares(sm.ipQueue, sm.xid, committed) { InsertedSpares(sm.ipQueue, r, committed); }
      if OldSpares(sm.mainQueue, sm.xid, committed) { InsertedSpares(sm.mainQueue, r, committed); }
    }
  }

  // Moving a bitmap or a chunk-info block

  /** The block found in the pool has no owner at all. */
  lemma PoolBlockFree(sm: Sm, live: set<nat>, lo: nat, hi: nat)
    requires sm.Shape() && sm.Owned(live, lo, hi)
    requires sm.IpFindFree() != 0
    ensures !sm.UsedBit(sm.IpFindFree()) && sm.IpFindFree() !in live && sm.Own(sm.IpFindFree()) == 0
    ensures forall i :: 0 <= i < |sm.chunks| ==> sm.chunks[i].bmap != sm.IpFindFree()
  {
    hide BmapTimes, CibTimes, Times;
    var n := sm.IpFindFree();
    assert sm.OwnedBlock(live, lo, hi, n);
    forall i | 0 <= i < |sm.chunks|
      ensures sm.chunks[i].bmap != n
    {
      BmapTimesMember(sm.chunks, i);
    }
  }

  /** The chunk bitmaps read the same, wherever they are. */
  ghost predicate SameBits(sm: Sm, s: Sm) {
    && sm.Shape() && s.Shape() && s.nbits == sm.nbits && s.ipBase == sm.ipBase && |s.ipUsed| == |sm.ipUsed|
    && |s.chunks| == |sm.chunks|
    && forall j :: 0 <= j < |s.chunks| ==>
      s.chunks[j].size == sm.chunks[j].size && s.chunks[j].free == sm.chunks[j].free && s.Bits(j) == sm.Bits(j)
  }

  lemma {:induction false} SumFreeSame(c: seq<Chunk>, d: seq<Chunk>)
    requires |c| == |d| && forall j :: 0 <= j < |c| ==> c[j].free == d[j].free
    ensures SumFree(c) == SumFree(d)
  {
    if c != [] { SumFreeSame(c[..|c| - 1], d[..|d| - 1]); }
  }

  lemma SameBitsCounted(sm: Sm, s: Sm)
    requires SameBits(sm, s) && sm.Counted() && s.freeCount == sm.freeCount
    ensures s.Counted()
  {
    hide Zeros, SumFree;
    SumFreeSame(sm.chunks, s.chunks);
  }

  lemma MoveBitmapSame(sm: Sm, live: set<nat>, lo: nat, hi: nat, i: nat)
    requires sm.Shape() && sm.Owned(live, lo, hi)
    requires sm.IpFindFree() != 0 && i < |sm.chunks|
    ensures SameBits(sm, sm.MoveBitmap(i))
  {
    hide Sm.QueueInsert, Sm.IpFindFree, Sm.Owned;
    PoolBlockFree(sm, live, lo, hi);
  }

  lemma MoveBitmapOwned(sm: Sm, live: set<nat>, lo: nat, hi: nat, i: nat)
    requires sm.Shape() && sm.Owned(live, lo, hi) && sm.CacheOk()
    requires sm.IpFindFree() != 0 && i < |sm.chunks|
    ensures SameBits(sm, sm.MoveBitmap(i))
    ensures sm.MoveBitmap(i).CacheOk() && sm.MoveBitmap(i).Owned(live, lo, hi)
  {
    var s, c, n := sm.MoveBitmap(i), sm.chunks[i], sm.IpFindFree();
    MoveBitmapSame(sm, live, lo, hi, i);
    PoolBlockFree(sm, live, lo, hi);
    forall b: nat
      ensures s.CacheOk() && s.OwnedBlock(live, lo, hi, b)
    {
      MoveBitmapBlock(sm, live, lo, hi, i, b);
    }
  }

  lemma MoveBitmapBlock(sm: Sm, live: set<nat>, lo: nat, hi: nat, i: nat, b: nat)
    requires sm.Shape() && sm.OwnedBlock(live, lo, hi, b) && sm.CacheOk()
    requires sm.IpFindFree() != 0 && i < |sm.chunks| && SameBits(sm, sm.MoveBitmap(i))
    ensures sm.MoveBitmap(i).CacheOk() && sm.MoveBitmap(i).OwnedBlock(live, lo, hi, b)
  {
    hide BmapTimes, CibTimes, Times, Sm.QueueInsert, Sm.IpFindFree, Sm.Shape;
    var c, n := sm.chunks[i], sm.IpFindFree();
    if c.bmap != 0 { QueueInsertCounts(sm, c.bmap, 1, b); }
    BmapTimesUpdate(sm.chunks, i, c.(bmap := n, xid := sm.xid), b);
    MoveBitmapUsed(sm, i, b);
  }

  lemma MoveBitmapUsed(sm: Sm, i: nat, b: nat)
    requires sm.Shape() && sm.IpFindFree() != 0 && i < |sm.chunks| && SameBits(sm, sm.MoveBitmap(i))
    ensures sm.MoveBitmap(i).UsedBit(b) == (sm.UsedBit(b) || b == sm.IpFindFree())
  {
    hide Sm.Shape, Sm.QueueInsert, Sm.IpFindFree;
  }

  lemma MoveBitmapProtects(sm: Sm, live: set<nat>, lo: nat, hi: nat, committed: set<nat>, kept: map<nat, seq<bool>>,
                           i: nat)
    requires sm.Inv(live, lo, hi, committed, kept) && sm.xid > 0
    requires sm.IpFindFree() != 0 && i < |sm.chunks| && SameBits(sm, sm.MoveBitmap(i))
    ensures sm.MoveBitmap(i).Protects(committed, kept) && sm.MoveBitmap(i).Dated()
  {
    hide Sm.QueueInsert, Sm.IpFindFree, Sm.Shape, Sm.Owned, Sm.Counted, Sm.UsedBit, InOrder, OldSpares, Sm.PoolReserved;
    var s := sm.MoveBitmap(i);
    QueueInsertInOrder(sm, sm.chunks[i].bmap, 1, committed);
    forall b: nat
      ensures s.UsedBit(b) == (sm.UsedBit(b) || b == sm.IpFindFree())
    {
      MoveBitmapUsed(sm, i, b);
    }
    PoolBlockFree(sm, live, lo, hi);
  }

  lemma SameBitsReserved(sm: Sm, s: Sm, live: set<nat>)
    requires SameBits(sm, s) && sm.PoolReserved(live)
    ensures forall b: nat :: s.InIp(b) && s.InMain(b) ==> s.MainBit(b)
  {
    forall b: nat | s.InIp(b) && s.InMain(b)
      ensures s.MainBit(b)
    {
      assert sm.InIp(b) && sm.InMain(b) ==> sm.MainBit(b);
    }
  }

  lemma MoveBitmapKeeps(sm: Sm, live: set<nat>, lo: nat, hi: nat, committed: set<nat>, kept: map<nat, seq<bool>>,
                        i: nat)
    requires sm.Inv(live, lo, hi, committed, kept) && sm.xid > 0
    requires sm.IpFindFree() != 0 && i < |sm.chunks|
    ensures SameBits(sm, sm.MoveBitmap(i)) && sm.MoveBitmap(i).Inv(live, lo, hi, committed, kept)
    ensures !sm.MoveBitmap(i).OldBitmap(i)
    ensures forall b: nat :: sm.UsedBit(b) ==> sm.MoveBitmap(i).UsedBit(b)
  {
    hide Sm.QueueInsert, Sm.IpFindFree, Sm.Shape, Sm.Owned, Sm.Counted, Sm.Protects, Sm.Dated, SameBits;
    MoveBitmapOwned(sm, live, lo, hi, i);
    MoveBitmapProtects(sm, live, lo, hi, committed, kept, i);
    SameBitsCounted(sm, sm.MoveBitmap(i));
    SameBitsReserved(sm, sm.MoveBitmap(i), live);
    forall b: nat
      ensures sm.MoveBitmap(i).UsedBit(b) == (sm.UsedBit(b) || b == sm.IpFindFree())
    {
      MoveBitmapUsed(sm, i, b);
    }
  }

  lemma MoveCibSame(sm: Sm, k: nat)
    requires sm.Shape() && sm.IpFindFree() != 0 && k < |sm.cibs|
    ensures SameBits(sm, sm.MoveCib(k))
  {
    hide Sm.QueueInsert, Sm.IpFindFree;
  }

  lemma MoveCibUsed(sm: Sm, k: nat, b: nat)
    requires sm.Shape() && sm.IpFindFree() != 0 && k < |sm.cibs| && SameBits(sm, sm.MoveCib(k))
    ensures sm.MoveCib(k).UsedBit(b) == (sm.UsedBit(b) || b == sm.IpFindFree())
  {
    hide Sm.Shape, Sm.QueueInsert, Sm.IpFindFree;
  }

  lemma MoveCibBlock(sm: Sm, live: set<nat>, lo: nat, hi: nat, k: nat, b: nat)
    requires sm.Shape() && sm.OwnedBlock(live, lo, hi, b) && sm.CacheOk()
    requires sm.IpFindFree() != 0 && k < |sm.cibs| && sm.cibs[k].bno > 0 && SameBits(sm, sm.MoveCib(k))
    ensures sm.MoveCib(k).CacheOk() && sm.MoveCib(k).OwnedBlock(live, lo, hi, b)
  {
    hide BmapTimes, CibTimes, Times, Sm.QueueInsert, Sm.IpFindFree, Sm.Shape;
    QueueInsertCounts(sm, sm.cibs[k].bno, 1, b);
    CibTimesUpdate(sm.cibs, k, Cib(sm.IpFindFree(), sm.xid), b);
    MoveCibUsed(sm, k, b);
  }

  lemma MoveCibProtects(sm: Sm, live: set<nat>, lo: nat, hi: nat, committed: set<nat>, kept: map<nat, seq<bool>>,
                        k: nat)
    requires sm.Inv(live, lo, hi, committed, kept) && sm.xid > 0
    requires sm.IpFindFree() != 0 && k < |sm.cibs| && SameBits(sm, sm.MoveCib(k))
    ensures sm.MoveCib(k).Protects(committed, kept) && sm.MoveCib(k).Dated()
  {
    hide Sm.QueueInsert, Sm.IpFindFree, Sm.Shape, Sm.Owned, Sm.Counted, Sm.UsedBit, InOrder, OldSpares, Sm.PoolReserved;
    var s := sm.MoveCib(k);
    QueueInsertInOrder(sm, sm.cibs[k].bno, 1, committed);
    forall b: nat
      ensures s.UsedBit(b) == (sm.UsedBit(b) || b == sm.IpFindFree())
    {
      MoveCibUsed(sm, k, b);
    }
    PoolBlockFree(sm, live, lo, hi);
  }

  lemma MoveCibKeeps(sm: Sm, live: set<nat>, lo: nat, hi: nat, committed: set<nat>, kept: map<nat, seq<bool>>, k: nat)
    requires sm.Inv(live, lo, hi, committed, kept) && sm.xid > 0
    requires sm.IpFindFree() != 0 && k < |sm.cibs|
    ensures SameBits(sm, sm.MoveCib(k)) && sm.MoveCib(k).Inv(live, lo, hi, committed, kept)
    ensures forall b: nat :: sm.UsedBit(b) ==> sm.MoveCib(k).UsedBit(b)
  {
    hide Sm.QueueInsert, Sm.IpFindFree, Sm.Counted, Sm.Protects, Sm.Dated, Sm.OwnedBlock, Sm.UsedBit, Sm.MainBit,
      Sm.Bits;
    assert sm.cibs[k].bno > 0;
    MoveCibSame(sm, k);
    MoveCibBlock(sm, live, lo, hi, k, 0);
    MoveCibProtects(sm, live, lo, hi, committed, kept, k);
    SameBitsCounted(sm, sm.MoveCib(k));
    SameBitsReserved(sm, sm.MoveCib(k), live);
    forall b: nat
      ensures sm.MoveCib(k).CacheOk() && sm.MoveCib(k).OwnedBlock(live, lo, hi, b)
      ensures sm.MoveCib(k).UsedBit(b) == (sm.UsedBit(b) || b == sm.IpFindFree())
    {
      MoveCibBlock(sm, live, lo, hi, k, b);
      MoveCibUsed(sm, k, b);
    }
  }

  // Setting and clearing a bit

  lemma AddrOf(sm: Sm, i: nat, k: nat)
    requires sm.nbits > 0 && k < sm.nbits
    ensures sm.ChunkOf(sm.Addr(i, k)) == i && sm.BitOf(sm.Addr(i, k)) == k
  {
    DivOf(i, k, sm.nbits);
  }

  lemma OfAddr(sm: Sm, b: nat)
    requires sm.nbits > 0
    ensures sm.Addr(sm.ChunkOf(b), sm.BitOf(b)) == b
  {
  }

  lemma SetBitBits(sm: Sm, live: set<nat>, lo: nat, hi: nat, i: nat, k: nat, v: bool)
    requires sm.Shape() && sm.Owned(live, lo, hi)
    requires i < |sm.chunks| && k < sm.nbits && sm.chunks[i].bmap != 0 &&
      (v ==> sm.chunks[i].free > 0 && sm.freeCount > 0)
    ensures sm.SetBit(i, k, v).Shape()
    ensures forall j :: 0 <= j < |sm.chunks| ==>
      sm.SetBit(i, k, v).Bits(j) == if j == i then sm.Bits(i)[k := v] else sm.Bits(j)
  {
    hide BmapTimes, CibTimes, Times, Sm.UsedBit;
    var b := sm.chunks[i].bmap;
    assert sm.OwnedBlock(live, lo, hi, b);
    forall j | 0 <= j < |sm.chunks| && j != i
      ensures sm.chunks[j].bmap != b
    {
      if sm.chunks[j].bmap == b {
        if j < i { BmapTimesTwice(sm.chunks, j, i); } else { BmapTimesTwice(sm.chunks, i, j); }
      }
    }
  }

  ghost predicate BitSet(sm: Sm, s: Sm, i: nat, k: nat, v: bool) {
    && sm.Shape() && s.Shape() && i < |sm.chunks| && k < sm.chunks[i].size
    && s.nbits == sm.nbits && s.ipBase == sm.ipBase && s.ipUsed == sm.ipUsed && |s.chunks| == |sm.chunks|
    && forall j :: 0 <= j < |s.chunks| ==>
      s.chunks[j].size == sm.chunks[j].size && s.Bits(j) == if j == i then sm.Bits(i)[k := v] else sm.Bits(j)
  }

  lemma SetBitUsed(sm: Sm, s: Sm, i: nat, k: nat, v: bool, b: nat)
    requires BitSet(sm, s, i, k, v)
    ensures s.InMain(b) == sm.InMain(b)
    ensures sm.InMain(sm.Addr(i, k)) && sm.MainBit(sm.Addr(i, k)) == sm.Bits(i)[k]
    ensures sm.InMain(b) ==> s.MainBit(b) == if b == sm.Addr(i, k) then v else sm.MainBit(b)
    ensures s.UsedBit(b) == if b == sm.Addr(i, k) && !sm.InIp(b) then v else sm.UsedBit(b)
  {
    hide Sm.ChunkOf, Sm.BitOf, Sm.Addr, Sm.CibOf;
    AddrOf(sm, i, k);
    OfAddr(sm, b);
    assert sm.ChunkOf(b) == s.ChunkOf(b) && sm.BitOf(b) == s.BitOf(b) by { SameAddr(sm, s, b); }
  }

  lemma SameAddr(sm: Sm, s: Sm, b: nat)
    requires sm.nbits > 0 && s.nbits == sm.nbits
    ensures sm.ChunkOf(b) == s.ChunkOf(b) && sm.BitOf(b) == s.BitOf(b)
  {
  }

  lemma SetBitCounted(sm: Sm, i: nat, k: nat, v: bool)
    requires sm.Shape() && sm.Counted() && i < |sm.chunks| && k < sm.chunks[i].size && sm.Bits(i)[k] != v
    requires v ==> sm.chunks[i].free > 0 && sm.freeCount > 0
    requires BitSet(sm, sm.SetBit(i, k, v), i, k, v)
    ensures sm.SetBit(i, k, v).Counted()
  {
    hide Zeros, SumFree, Sm.Bits, Sm.CibOf;
    var s, n := sm.SetBit(i, k, v), sm.chunks[i].size;
    SumFreeUpdate(sm.chunks, i, s.chunks[i]);
    ZerosUpdate(sm.Bits(i)[..n], k, v);
    assert sm.Bits(i)[k := v][..n] == sm.Bits(i)[..n][k := v];
  }

  lemma SetBitRest(sm: Sm, live: set<nat>, lo: nat, hi: nat, committed: set<nat>, kept: map<nat, seq<bool>>, i: nat,
                   k: nat, v: bool)
    requires sm.Inv(live, lo, hi, committed, kept) && i < |sm.chunks| && k < sm.chunks[i].size
    requires !sm.OldBitmap(i) && !sm.InIp(sm.Addr(i, k)) && sm.Bits(i)[k] != v
    requires v ==> sm.chunks[i].free > 0 && sm.freeCount > 0
    requires !v ==> sm.Addr(i, k) !in committed
    ensures BitSet(sm, sm.SetBit(i, k, v), i, k, v)
    ensures var s := sm.SetBit(i, k, v);
      s.CacheOk() && s.PoolReserved(live) && s.Dated() && s.Counted() && s.Protects(committed, kept)
  {
    hide Zeros, SumFree, Sm.Counted, Sm.Owned, Sm.UsedBit, InOrder, OldSpares, Sm.MainBit, Sm.InMain, Sm.Addr;
    var s := sm.SetBit(i, k, v);
    SetBitBits(sm, live, lo, hi, i, k, v);
    SetBitCounted(sm, i, k, v);
    forall b: nat
      ensures s.InMain(b) == sm.InMain(b)
      ensures sm.InMain(b) ==> s.MainBit(b) == if b == sm.Addr(i, k) then v else sm.MainBit(b)
      ensures s.UsedBit(b) == if b == sm.Addr(i, k) && !sm.InIp(b) then v else sm.UsedBit(b)
    {
      SetBitUsed(sm, s, i, k, v, b);
    }
  }

  lemma {:induction false} SetBitOwn(sm: Sm, i: nat, k: nat, v: bool, b: nat)
    requires sm.Shape() && i < |sm.chunks| && k < sm.nbits && (v ==> sm.chunks[i].free > 0 && sm.freeCount > 0)
    ensures sm.SetBit(i, k, v).Own(b) == sm.Own(b) && sm.SetBit(i, k, v).Queued(b) == sm.Queued(b)
  {
    hide BmapTimes, CibTimes, Times;
    BmapTimesUpdate(sm.chunks, i, sm.SetBit(i, k, v).chunks[i], b);
  }

  /** Allocation gives the block to the filesystem. It had no owner before. */
  lemma SetBitAllocates(sm: Sm, live: set<nat>, lo: nat, hi: nat, committed: set<nat>, kept: map<nat, seq<bool>>,
                        i: nat, k: nat)
    requires sm.Inv(live, lo, hi, committed, kept) && i < |sm.chunks| && k < sm.chunks[i].size
    requires !sm.OldBitmap(i) && !sm.Bits(i)[k] && sm.chunks[i].free > 0 && sm.freeCount > 0
    ensures var b := sm.Addr(i, k);
      b !in live && b !in committed && sm.Own(b) == 0 && sm.InMain(b) && !sm.UsedBit(b) && !sm.InIp(b)
    ensures BitSet(sm, sm.SetBit(i, k, true), i, k, true)
    ensures sm.SetBit(i, k, true).Inv(live + {sm.Addr(i, k)}, lo, hi, committed, kept)
  {
    hide Zeros, SumFree, Sm.Counted, BmapTimes, CibTimes, Times, Sm.Dated, Sm.Addr, Sm.Bits, Sm.SetBit, Sm.MainBit,
      Sm.Own, Sm.Queued, Sm.InMain, Sm.CibOf;
    var s, a := sm.SetBit(i, k, true), sm.Addr(i, k);
    var grown := live + {a};
    SetBitBits(sm, live, lo, hi, i, k, true);
    SetBitShape(sm, i, k, true);
    SetBitUsed(sm, s, i, k, true, a);
    assert sm.OwnedBlock(live, lo, hi, a);
    SetBitRest(sm, live, lo, hi, committed, kept, i, k, true);
    forall b: nat
      ensures s.OwnedBlock(grown, lo, hi, b)
    {
      assert sm.OwnedBlock(live, lo, hi, b);
      SetBitOwn(sm, i, k, true, b);
      SetBitUsed(sm, s, i, k, true, b);
    }
  }

  lemma SetBitShape(sm: Sm, i: nat, k: nat, v: bool)
    requires sm.Shape() && i < |sm.chunks| && k < sm.nbits && (v ==> sm.chunks[i].free > 0 && sm.freeCount > 0)
    ensures var s := sm.SetBit(i, k, v);
      && s.nbits == sm.nbits && s.ipBase == sm.ipBase && s.ipUsed == sm.ipUsed && |s.chunks| == |sm.chunks|
      && forall j :: 0 <= j < |s.chunks| ==> s.chunks[j].size == sm.chunks[j].size
  {
  }

  /** Freeing one more block of the record that is being flushed. */
  lemma SetBitFrees(sm: Sm, live: set<nat>, lo: nat, hi: nat, committed: set<nat>, kept: map<nat, seq<bool>>, i: nat,
                    k: nat)
    requires sm.Inv(live, lo, hi, committed, kept) && i < |sm.chunks| && k < sm.chunks[i].size
    requires !sm.OldBitmap(i) && sm.Bits(i)[k] && !sm.InIp(hi) && sm.Addr(i, k) == hi && lo <= hi
    requires hi !in committed && sm.Queued(hi) > 0
    ensures BitSet(sm, sm.SetBit(i, k, false), i, k, false)
    ensures sm.SetBit(i, k, false).Inv(live, lo, hi + 1, committed, kept)
  {
    hide Zeros, SumFree, Sm.Counted, BmapTimes, CibTimes, Times, Sm.Dated, Sm.Addr, Sm.Bits, Sm.SetBit, Sm.MainBit,
      Sm.Own, Sm.Queued, Sm.InMain, Sm.CibOf;
    var s, next := sm.SetBit(i, k, false), hi + 1;
    SetBitRest(sm, live, lo, hi, committed, kept, i, k, false);
    forall b: nat
      ensures s.OwnedBlock(live, lo, next, b)
    {
      assert sm.OwnedBlock(live, lo, hi, b);
      SetBitOwn(sm, i, k, false, b);
      SetBitUsed(sm, s, i, k, false, b);
    }
  }

  lemma IpMarkFreeUsed(sm: Sm, a: nat, b: nat)
    requires sm.Shape() && sm.InIp(a)
    ensures SameBits(sm, sm.IpMarkFree(a))
    ensures sm.IpMarkFree(a).UsedBit(b) == (b != a && sm.UsedBit(b))
  {
  }

  lemma IpMarkFreeFrees(sm: Sm, live: set<nat>, lo: nat, hi: nat, committed: set<nat>, kept: map<nat, seq<bool>>)
    requires sm.Inv(live, lo, hi, committed, kept) && sm.InIp(hi) && lo <= hi
    requires hi !in committed && sm.Queued(hi) > 0 && sm.ipUsed[hi - sm.ipBase]
    ensures sm.IpMarkFree(hi).Inv(live, lo, hi + 1, committed, kept)
  {
    hide Sm.Counted, Sm.Bits, InOrder, OldSpares, Sm.Own, Sm.Queued, Sm.CibOf, Sm.MainBit;
    var s, next := sm.IpMarkFree(hi), hi + 1;
    IpMarkFreeUsed(sm, hi, hi);
    SameBitsReserved(sm, s, live);
    SameBitsCounted(sm, s);
    forall b: nat
      ensures s.UsedBit(b) == (b != hi && sm.UsedBit(b)) && s.OwnedBlock(live, lo, next, b)
    {
      assert sm.OwnedBlock(live, lo, hi, b);
      IpMarkFreeUsed(sm, hi, b);
      SameOwners(sm, s, b);
    }
  }

  lemma SameOwners(sm: Sm, s: Sm, b: nat)
    requires s.chunks == sm.chunks && s.cibs == sm.cibs
    requires s.ipQueue == sm.ipQueue && s.mainQueue == sm.mainQueue && s.cacheBase == sm.cacheBase &&
      s.cacheCnt == sm.cacheCnt
    ensures s.Own(b) == sm.Own(b) && s.Queued(b) == sm.Queued(b)
  {
  }

  lemma {:induction false} TimesMember(q: seq<FqRec>, k: nat, b: nat)
    requires k < |q| && q[k].Covers(b)
    ensures Times(q, b) > 0
  {
    if k < |q| - 1 { TimesMember(q[..|q| - 1], k, b); }
  }

  lemma WithoutInOrder(q: seq<FqRec>, k: nat, xid: nat, committed: set<nat>)
    requires k < |q| && InOrder(q, xid) && OldSpares(q, xid, committed)
    ensures InOrder(Without(q, k), xid) && OldSpares(Without(q, k), xid, committed)
    ensures forall j :: 0 <= j < |Without(q, k)| ==> Without(q, k)[j] in q
  {
    var t := Without(q, k);
    assert forall j :: 0 <= j < |t| ==> t[j] == if j < k then q[j] else q[j + 1];
  }

  /** How a change to the queues moves a block between owners. */
  ghost predicate Moved(sm: Sm, s: Sm, live: set<nat>, lo: nat, hi: nat, live2: set<nat>, b: nat) {
    One(b in live2) + s.Queued(b) + One(lo <= b < hi) == One(b in live) + sm.Queued(b)
  }

  lemma QueuesChanged(sm: Sm, s: Sm, live: set<nat>, lo: nat, hi: nat, live2: set<nat>, committed: set<nat>,
                      kept: map<nat, seq<bool>>)
    requires sm.Inv(live, lo, hi, committed, kept)
    requires s == sm.(ipQueue := s.ipQueue, mainQueue := s.mainQueue, cacheBase := s.cacheBase, cacheCnt := s.cacheCnt)
    requires s.CacheOk() && s.Dated() && OldSpares(s.ipQueue, s.xid, committed) &&
      OldSpares(s.mainQueue, s.xid, committed)
    requires 0 in live2 && live2 <= live && forall b: nat :: Moved(sm, s, live, lo, hi, live2, b)
    ensures s.Inv(live2, 0, 0, committed, kept)
  {
    hide Sm.Counted, Sm.Bits, OldSpares, Sm.Dated, Times, BmapTimes, CibTimes;
    assert SameBits(sm, s) by { QueuesSame(sm, s); }
    SameBitsReserved(sm, s, live);
    SameBitsCounted(sm, s);
    forall b: nat
      ensures s.UsedBit(b) == sm.UsedBit(b) && s.OwnedBlock(live2, 0, 0, b)
    {
      SameUsed(sm, s, b);
      assert sm.OwnedBlock(live, lo, hi, b) && Moved(sm, s, live, lo, hi, live2, b);
    }
  }

  lemma QueuesSame(sm: Sm, s: Sm)
    requires sm.Shape()
    requires s == sm.(ipQueue := s.ipQueue, mainQueue := s.mainQueue, cacheBase := s.cacheBase, cacheCnt := s.cacheCnt)
    ensures SameBits(sm, s)
  {
  }

  lemma SameUsed(sm: Sm, s: Sm, b: nat)
    requires SameBits(sm, s) && s.ipUsed == sm.ipUsed
    ensures s.UsedBit(b) == sm.UsedBit(b)
  {
  }

  /** Once all of its blocks are free, a record can go. */
  lemma DequeueKeeps(sm: Sm, live: set<nat>, lo: nat, hi: nat, committed: set<nat>, kept: map<nat, seq<bool>>,
                     ip: bool, k: nat)
    requires sm.Inv(live, lo, hi, committed, kept) && lo <= hi
    requires var q := if ip then sm.ipQueue else sm.mainQueue; k < |q| && lo == q[k].bno && hi == q[k].bno + q[k].len
    ensures sm.Dequeue(ip, k).Inv(live, 0, 0, committed, kept)
  {
    hide Sm.Shape, Sm.Counted, Sm.PoolReserved, Sm.Owned, InOrder, OldSpares, Times, Without;
    var s, q := sm.Dequeue(ip, k), if ip then sm.ipQueue else sm.mainQueue;
    WithoutInOrder(q, k, sm.xid, committed);
    forall b: nat
      ensures Moved(sm, s, live, lo, hi, live, b)
    {
      TimesRemoved(q, k, b);
      assert Without(q, k) == q[..k] + q[k + 1..] by { WithoutIs(q, k); }
    }
    assert 0 in live by { ZeroLive(sm, live); }
    QueuesChanged(sm, s, live, lo, hi, live, committed, kept);
  }

  /** Freed blocks stop belonging to the filesystem, but stay unavailable. */
  lemma QueueInsertKeeps(sm: Sm, live: set<nat>, committed: set<nat>, kept: map<nat, seq<bool>>, bno: nat, cnt: nat)
    requires sm.Inv(live, 0, 0, committed, kept) && sm.xid > 0 && bno > 0 && cnt > 0
    requires forall b :: bno <= b < bno + cnt ==> b in live
    ensures sm.QueueInsert(bno, cnt).Inv(live - Range(bno, cnt), 0, 0, committed, kept)
  {
    hide Sm.Counted, Sm.Owned, Sm.Dated, OldSpares, Sm.QueueInsert, Sm.Queued, Sm.MainBit, Sm.InMain, Sm.CibOf;
    var s, rest := sm.QueueInsert(bno, cnt), live - Range(bno, cnt);
    assert !sm.InIp(bno) && (bno <= sm.ipBase < bno + cnt ==> sm.ipBase in live);
    QueueInsertInOrder(sm, bno, cnt, committed);
    QueueInsertCounts(sm, bno, cnt, 0);
    forall b: nat
      ensures Moved(sm, s, live, 0, 0, rest, b)
    {
      QueueInsertCounts(sm, bno, cnt, b);
    }
    assert 0 in live by { ZeroLive(sm, live); }
    QueuesChanged(sm, s, live, 0, 0, rest, committed, kept);
  }

  function Range(bno: nat, cnt: nat): (r: set<nat>)
    ensures forall b: nat :: b in r <==> bno <= b < bno + cnt
  {
    if cnt == 0 then {} else Range(bno, cnt - 1) + {bno + cnt - 1}
  }

  lemma WithoutIs(q: seq<FqRec>, k: nat)
    requires k < |q|
    ensures Without(q, k) == q[..k] + q[k + 1..]
  {
  }

  lemma ZeroLive(sm: Sm, live: set<nat>)
    requires sm.Shape() && sm.PoolReserved(live)
    ensures 0 in live
  {
  }

  /** The cached range becomes a record; no block changes hands. */
  lemma FlushCacheKeeps(sm: Sm, live: set<nat>, committed: set<nat>, kept: map<nat, seq<bool>>)
    requires sm.Inv(live, 0, 0, committed, kept) && sm.xid > 0
    ensures sm.FlushCache().Inv(live, 0, 0, committed, kept) && sm.FlushCache().cacheBase == 0
  {
    hide Sm.Shape, Sm.Counted, Sm.PoolReserved, Sm.Owned, InOrder, OldSpares, Times;
    if sm.cacheBase > 0 {
      var s, r := sm.FlushCache(), FqRec(sm.xid, sm.cacheBase, sm.cacheCnt);
      EnqueueInOrder(sm, sm.cacheBase, sm.cacheCnt);
      InsertedSpares(sm.ipQueue, r, committed);
      InsertedSpares(sm.mainQueue, r, committed);
      forall b: nat
        ensures Moved(sm, s, live, 0, 0, live, b)
      {
        EnqueueCounts(sm, sm.cacheBase, sm.cacheCnt, b);
      }
      assert 0 in live by { ZeroLive(sm, live); }
      QueuesChanged(sm, s, live, 0, 0, live, committed, kept);
    }
  }

  /** Blocks that are freed one at a time, each of them next to those before it: above them
      for `true`, and below for `false`. */
  function FreeEach(sm: Sm, bno: nat, sides: seq<bool>): (r: (Sm, nat, nat))
    requires |sides| <= bno
    ensures r.1 <= bno < r.2 && r.2 - r.1 == |sides| + 1 && bno - |sides| <= r.1
  {
    if sides == [] then (sm.QueueInsert(bno, 1), bno, bno + 1)
    else
      var n := |sides| - 1;
      var (s, lo, hi) := FreeEach(sm, bno, sides[..n]);
      if sides[n] then (s.QueueInsert(hi, 1), lo, hi + 1) else (s.QueueInsert(lo - 1, 1), lo - 1, hi)
  }

  /** Whatever the order, they stay together in the cache and no queue changes, as long as they
      are all in the pool or all outside. */
  lemma {:induction false} FreedTogether(sm: Sm, bno: nat, sides: seq<bool>)
    requires |sides| < bno && sm.cacheBase == 0
    requires var (_, lo, hi) := FreeEach(sm, bno, sides); sm.OneSided(lo, hi - lo)
    ensures var (s, lo, hi) := FreeEach(sm, bno, sides); s == sm.(cacheBase := lo, cacheCnt := hi - lo)
  {
    if sides != [] {
      FreedTogether(sm, bno, sides[..|sides| - 1]);
    }
  }

  /** What a commit leaves behind is safe in the next transaction: every block that the
      new checkpoint uses is either live or the manager's own. */
  lemma CommitProtects(sm: Sm, live: set<nat>, committed: set<nat>, kept: map<nat, seq<bool>>, xid: nat)
    requires sm.Inv(live, 0, 0, committed, kept) && xid > sm.xid
    ensures sm.(xid := xid).Inv(live, 0, 0, live + sm.OwnBlocks(), sm.disk)
  {
    hide Sm.Counted, Sm.Bits, Times, BmapTimes, CibTimes;
    var s, c := sm.(xid := xid), live + sm.OwnBlocks();
    assert SameBits(sm, s) by { NextSame(sm, xid); }
    SameBitsReserved(sm, s, live);
    SameBitsCounted(sm, s);
    forall b: nat
      ensures s.OwnedBlock(live, 0, 0, b)
      ensures b in c ==> s.UsedBit(b) && s.Queued(b) == 0
    {
      SameUsed(sm, s, b);
      SameOwners(sm, s, b);
      assert sm.OwnedBlock(live, 0, 0, b);
      if b in sm.OwnBlocks() { OwnBlocksOwned(sm, b); }
    }
    forall k, b: nat | 0 <= k < |sm.ipQueue| && b in c
      ensures !sm.ipQueue[k].Covers(b)
    {
      if sm.ipQueue[k].Covers(b) { TimesMember(sm.ipQueue, k, b); }
    }
    forall k, b: nat | 0 <= k < |sm.mainQueue| && b in c
      ensures !sm.mainQueue[k].Covers(b)
    {
      if sm.mainQueue[k].Covers(b) { TimesMember(sm.mainQueue, k, b); }
    }
  }

  lemma NextSame(sm: Sm, xid: nat)
    requires sm.Shape()
    ensures SameBits(sm, sm.(xid := xid))
  {
  }

  lemma OwnBlocksOwned(sm: Sm, b: nat)
    requires b in sm.OwnBlocks()
    ensures sm.Own(b) > 0
  {
    if i :| 0 <= i < |sm.chunks| && sm.chunks[i].bmap != 0 && sm.chunks[i].bmap == b {
      BmapTimesMember(sm.chunks, i);
    } else {
      var k :| 0 <= k < |sm.cibs| && sm.cibs[k].bno == b;
      CibTimesMember(sm.cibs, k);
    }
  }

  // Allocating and freeing a block

  lemma RoomAfter(sm: Sm, i: nat)
    requires sm.Shape() && i < |sm.chunks|
    ensures sm.IpFindFree() != 0 <==> Zeros(sm.ipUsed) > 0
    ensures Zeros(sm.OwnBitmap(i).ipUsed) ==
            Zeros(sm.ipUsed) - One(sm.OldBitmap(i) && sm.IpFindFree() != 0)
    ensures sm.OwnBitmap(i).IpFindFree() != 0 <==> Zeros(sm.OwnBitmap(i).ipUsed) > 0
  {
    hide Zeros, FindZero, Sm.QueueInsert, Sm.CibOf;
    SomeZero(sm.ipUsed);
    SomeZero(sm.OwnBitmap(i).ipUsed);
    if sm.IpFindFree() != 0 { ZerosUpdate(sm.ipUsed, FindZero(sm.ipUsed), true); }
  }

  lemma PrepareKeeps(sm: Sm, live: set<nat>, lo: nat, hi: nat, committed: set<nat>, kept: map<nat, seq<bool>>, i: nat)
    requires sm.Inv(live, lo, hi, committed, kept) && sm.xid > 0 && i < |sm.chunks| && Zeros(sm.ipUsed) >= sm.Need(i)
    ensures SameBits(sm, sm.Prepare(i)) && sm.Prepare(i).Inv(live, lo, hi, committed, kept)
    ensures !sm.Prepare(i).OldBitmap(i)
    ensures forall b: nat :: sm.UsedBit(b) ==> sm.Prepare(i).UsedBit(b)
  {
    hide Zeros, Sm.MoveBitmap, Sm.MoveCib, Sm.IpFindFree, Sm.UsedBit, Sm.Owned, Sm.Counted, Sm.Protects,
      Sm.PoolReserved, Sm.Bits;
    RoomAfter(sm, i);
    if sm.OldBitmap(i) { MoveBitmapKeeps(sm, live, lo, hi, committed, kept, i); }
    var t, k := sm.OwnBitmap(i), sm.CibOf(i);
    if t.cibs[k].xid < t.xid { MoveCibKeeps(t, live, lo, hi, committed, kept, k); }
  }

  /** Allocating from a chunk with free blocks: the block found had no owner, was not in
      use by the last checkpoint, and now belongs to the filesystem. */
  lemma AllocKeeps(sm: Sm, live: set<nat>, lo: nat, hi: nat, committed: set<nat>, kept: map<nat, seq<bool>>, i: nat)
    requires sm.Inv(live, lo, hi, committed, kept) && sm.xid > 0 && i < |sm.chunks|
    requires sm.chunks[i].free > 0 && Zeros(sm.ipUsed) >= sm.Need(i)
    ensures FindZero(sm.Bits(i)) < sm.chunks[i].size
    ensures var b := sm.Addr(i, FindZero(sm.Bits(i)));
      && b > 0 && b !in live && b !in committed && !sm.UsedBit(b) && sm.InMain(b)
      && sm.Alloc(i).Inv(live + {b}, lo, hi, committed, kept)
  {
    hide Zeros, SumFree, FindZero, Sm.Prepare, Sm.Owned, Sm.Protects, Sm.Dated, Sm.Bits, Sm.SetBit, Sm.UsedBit,
      Sm.InMain, Sm.CibOf;
    var s, k := sm.Prepare(i), FindZero(sm.Bits(i));
    PrepareKeeps(sm, live, lo, hi, committed, kept, i);
    FirstZeroInPrefix(sm.Bits(i), sm.chunks[i].size);
    FreeInSum(sm.chunks, i);
    SetBitAllocates(s, live, lo, hi, committed, kept, i, k);
    assert s.Addr(i, k) == sm.Addr(i, k);
    assert !sm.UsedBit(s.Addr(i, k));
    assert sm.InMain(s.Addr(i, k)) by { SameMain(sm, s, s.Addr(i, k)); }
    assert 0 in live;
  }

  /** An allocation never clears a bit. */
  lemma AllocUsed(sm: Sm, live: set<nat>, committed: set<nat>, kept: map<nat, seq<bool>>, i: nat, b: nat)
    requires sm.Inv(live, 0, 0, committed, kept) && sm.xid > 0 && i < |sm.chunks|
    requires sm.chunks[i].free > 0 && Zeros(sm.ipUsed) >= sm.Need(i)
    ensures sm.Alloc(i).Shape() && (sm.UsedBit(b) ==> sm.Alloc(i).UsedBit(b))
  {
    hide Zeros, SumFree, FindZero, Sm.Prepare, Sm.Owned, Sm.Protects, Sm.Dated, Sm.Bits, Sm.SetBit, Sm.UsedBit,
      Sm.InMain, Sm.CibOf;
    var s, k := sm.Prepare(i), FindZero(sm.Bits(i));
    PrepareKeeps(sm, live, 0, 0, committed, kept, i);
    FirstZeroInPrefix(sm.Bits(i), sm.chunks[i].size);
    FreeInSum(sm.chunks, i);
    SetBitAllocates(s, live, 0, 0, committed, kept, i, k);
    SetBitUsed(s, s.SetBit(i, k, true), i, k, true, b);
  }

  lemma {:induction false} FreeInSum(chunks: seq<Chunk>, i: nat)
    requires i < |chunks|
    ensures chunks[i].free <= SumFree(chunks)
    decreases |chunks|
  {
    if i < |chunks| - 1 { FreeInSum(chunks[..|chunks| - 1], i); }
  }

  lemma SameMain(sm: Sm, s: Sm, b: nat)
    requires SameBits(sm, s)
    ensures sm.InMain(b) == s.InMain(b) && (sm.InMain(b) ==> sm.MainBit(b) == s.MainBit(b))
    ensures sm.ChunkOf(b) == s.ChunkOf(b) && sm.BitOf(b) == s.BitOf(b)
  {
  }

  /** The copies made while freeing a block change the count of no queued block but those
      that they replace, which were used by the last checkpoint or by nobody. */
  lemma PrepareQueued(sm: Sm, i: nat, b: nat)
    requires sm.Shape() && sm.CacheOk() && sm.xid > 0 && i < |sm.chunks|
    requires forall k :: 0 <= k < |sm.cibs| ==> sm.cibs[k].bno > 0
    ensures sm.Prepare(i).Queued(b) >= sm.Queued(b)
  {
    hide Times, Sm.QueueInsert, Sm.IpFindFree, Sm.CibOf;
    var t, k := sm.OwnBitmap(i), sm.CibOf(i);
    assert t.Queued(b) >= sm.Queued(b) && t.CacheOk() by {
      if sm.OldBitmap(i) && sm.chunks[i].bmap != 0 { QueueInsertCounts(sm, sm.chunks[i].bmap, 1, b); }
    }
    QueueInsertCounts(t, t.cibs[k].bno, 1, b);
  }

  /** Freeing the next block of the record that is being flushed. */
  lemma FreeKeeps(sm: Sm, live: set<nat>, lo: nat, hi: nat, committed: set<nat>, kept: map<nat, seq<bool>>)
    requires sm.Inv(live, lo, hi, committed, kept) && sm.xid > 0 && lo <= hi
    requires !sm.InIp(hi) && hi !in committed && sm.Queued(hi) > 0
    ensures sm.InMain(hi) && sm.MainBit(hi) && sm.chunks[sm.ChunkOf(hi)].bmap != 0
    ensures Zeros(sm.ipUsed) >= sm.Need(sm.ChunkOf(hi)) ==> sm.Free(hi).Inv(live, lo, hi + 1, committed, kept)
  {
    hide Zeros, SumFree, FindZero, Sm.Prepare, Sm.Protects, Sm.Dated, Sm.Bits, Sm.SetBit, Sm.Own, Sm.Queued,
      Sm.CibOf, Sm.Addr, Sm.ChunkOf, Sm.BitOf, Sm.Counted;
    assert sm.OwnedBlock(live, lo, hi, hi);
    assert sm.UsedBit(hi);
    var i, k := sm.ChunkOf(hi), sm.BitOf(hi);
    assert sm.chunks[i].bmap != 0 by { SetBitNotClear(sm, hi); }
    if Zeros(sm.ipUsed) >= sm.Need(i) {
      var s := sm.Prepare(i);
      PrepareKeeps(sm, live, lo, hi, committed, kept, i);
      PrepareQueued(sm, i, hi);
      SameMain(sm, s, hi);
      OfAddr(s, hi);
      SetBitFrees(s, live, lo, hi, committed, kept, i, k);
    }
  }

  lemma SetBitNotClear(sm: Sm, b: nat)
    requires sm.Shape() && sm.InMain(b) && sm.MainBit(b)
    ensures sm.chunks[sm.ChunkOf(b)].bmap != 0
  {
  }

  lemma PrepareChunk(sm: Sm, i: nat)
    requires sm.Shape() && i < |sm.chunks|
    ensures sm.Prepare(i).Bits(i) == sm.Bits(i) && sm.Prepare(i).chunks[i].free == sm.chunks[i].free
    ensures Zeros(sm.ipUsed) >= sm.Need(i) ==> !sm.Prepare(i).OldBitmap(i)
    ensures Zeros(sm.ipUsed) < sm.Need(i) <==>
            (sm.OldBitmap(i) && sm.IpFindFree() == 0) ||
              (sm.cibs[sm.CibOf(i)].xid < sm.xid && sm.OwnBitmap(i).IpFindFree() == 0)
  {
    hide Zeros, Sm.QueueInsert, Sm.IpFindFree, Sm.CibOf;
    RoomAfter(sm, i);
  }

  // Flushing the queues

  ghost predicate AllCurrent(q: seq<FqRec>, xid: nat) {
    forall k :: 0 <= k < |q| ==> q[k].xid == xid
  }

  lemma InsertedCurrent(q: seq<FqRec>, r: FqRec)
    requires AllCurrent(q, r.xid)
    ensures AllCurrent(Inserted(q, r), r.xid)
  {
    hide Position, Inserted;
    InsertedAt(q, r, 0);
    forall k | 0 <= k < |Inserted(q, r)|
      ensures Inserted(q, r)[k] == r || Inserted(q, r)[k] in q
    {
      InsertedAt(q, r, k);
    }
  }

  ghost predicate PoolCache(sm: Sm) { sm.cacheBase == 0 || sm.InIp(sm.cacheBase) }

  /** Only the queue of the pool is touched. */
  ghost predicate PoolOnly(sm: Sm, s: Sm) {
    && s.mainQueue == sm.mainQueue && s.xid == sm.xid && s.ipBase == sm.ipBase && |s.ipUsed| == |sm.ipUsed|
    && (AllCurrent(sm.ipQueue, sm.xid) ==> AllCurrent(s.ipQueue, s.xid))
  }

  lemma QueueInsertPool(sm: Sm, bno: nat)
    requires PoolCache(sm) && sm.InIp(bno)
    ensures PoolCache(sm.QueueInsert(bno, 1)) && PoolOnly(sm, sm.QueueInsert(bno, 1))
  {
    hide Inserted, AllCurrent;
    if AllCurrent(sm.ipQueue, sm.xid) { InsertedCurrent(sm.ipQueue, FqRec(sm.xid, sm.cacheBase, sm.cacheCnt)); }
  }

  /** The copies made for a freed block are of pool blocks, so the main queue stays put
      while it is being flushed. */
  lemma FreePool(sm: Sm, live: set<nat>, b: nat)
    requires sm.Shape() && sm.PoolReserved(live) && PoolCache(sm) && sm.ChunkOf(b) < |sm.chunks|
    ensures PoolCache(sm.Free(b)) && PoolOnly(sm, sm.Free(b))
  {
    hide Sm.QueueInsert, Sm.IpFindFree, Sm.Bits, Sm.CibOf, AllCurrent, Sm.ChunkOf, Sm.BitOf, Sm.MainBit, Sm.InMain;
    var i := sm.ChunkOf(b);
    var t, k := sm.OwnBitmap(i), sm.CibOf(i);
    assert PoolCache(t) && PoolOnly(sm, t) by {
      if sm.chunks[i].bmap != 0 { QueueInsertPool(sm, sm.chunks[i].bmap); }
    }
    assert t.InIp(t.cibs[k].bno);
    QueueInsertPool(t, t.cibs[k].bno);
  }

  /** A container as it may be when mounted for the first time: one chunk of eight blocks,
      with the pool from block two on, one bitmap block and one chunk-info block. */
  function SmallContainer(xid: nat): Sm {
    Sm(8, 1, 2, xid, [Chunk(8, 1, 2, xid)], [Cib(3, xid)], map[2 := [true, false, true, true, true, true, true, true]],
       [true, true, false, false, false, false], 1, [], [], 0, 0)
  }

  /** The invariant holds to begin with. */
  lemma SmallContainerInv(xid: nat)
    ensures SmallContainer(xid).Inv({0}, 0, 0, {}, map[])
  {
    var sm := SmallContainer(xid);
    var bits := sm.Bits(0);
    assert bits == [true, false, true, true, true, true, true, true] == bits[..8];
    FewZeros();
    assert SumFree(sm.chunks) == 1 by { assert sm.chunks[..0] == []; }
    forall b: nat
      ensures sm.OwnedBlock({0}, 0, 0, b)
    {
      SmallOwners(xid, b);
    }
  }

  lemma FewZeros()
    ensures Zeros([true, false, true, true, true, true, true, true]) == 1
  {
    ZerosUpdate([true, false, true, true, true, true, true, true], 1, true);
    var full := [true, false, true, true, true, true, true, true][1 := true];
    if Zeros(full) > 0 {
      SomeZero(full);
    }
  }

  lemma OneOwner(c: Chunk, k: Cib, b: nat)
    ensures BmapTimes([c], b) == One(c.bmap == b) && CibTimes([k], b) == One(k.bno == b)
  {
    assert [c][..0] == [] && [k][..0] == [];
  }

  lemma SmallOwners(xid: nat, b: nat)
    ensures var sm := SmallContainer(xid);
      sm.Shape() && sm.Own(b) == One(b == 2 || b == 3) && sm.UsedBit(b) == (b == 0 || b == 2 || b == 3)
  {
    var sm := SmallContainer(xid);
    OneOwner(sm.chunks[0], sm.cibs[0], b);
  }
}
