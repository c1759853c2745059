/** The in-memory space manager and its operations (spaceman.c, and the parts of
    transaction.c that drive it), proved against the model in Spaceman. */
module SpaceManagers {
  import opened Arith
  import opened Bitmaps
  import opened Spaceman
  import opened SpaceCopies

  class SpaceManager {
    const nbits: nat
    const perCib: nat
    const ipBase: nat
    var xid: nat
    var chunks: seq<Chunk>
    var cibs: seq<Cib>
    var disk: map<nat, seq<bool>>
    var ipUsed: seq<bool>
    var freeCount: nat
    var ipQueue: seq<FqRec>
    var mainQueue: seq<FqRec>
    var cacheBase: nat
    var cacheCnt: nat

    constructor (sm: Sm)
      ensures St() == sm
    {
      nbits, perCib, ipBase, xid := sm.nbits, sm.perCib, sm.ipBase, sm.xid;
      chunks, cibs, disk, ipUsed, freeCount := sm.chunks, sm.cibs, sm.disk, sm.ipUsed, sm.freeCount;
      ipQueue, mainQueue, cacheBase, cacheCnt := sm.ipQueue, sm.mainQueue, sm.cacheBase, sm.cacheCnt;
    }

    function St(): Sm
      reads this
    {
      Sm(nbits, perCib, ipBase, xid, chunks, cibs, disk, ipUsed, freeCount, ipQueue, mainQueue, cacheBase, cacheCnt)
    }

    predicate BlockInIp(b: nat)
      reads this
    {
      ipBase <= b < ipBase + |ipUsed|
    }

    /** apfs_free_queue_insert_nocache() */
    method FreeQueueInsertNocache(bno: nat, cnt: nat)
      modifies this`ipQueue, this`mainQueue
      ensures St() == old(St()).Enqueue(bno, cnt)
    {
      var r := FqRec(xid, bno, cnt);
      if BlockInIp(bno) {
        ipQueue := Inserted(ipQueue, r);
      } else {
        mainQueue := Inserted(mainQueue, r);
      }
    }

    /** apfs_free_queue_insert() */
    method FreeQueueInsert(bno: nat, cnt: nat)
      modifies this`ipQueue, this`mainQueue, this`cacheBase, this`cacheCnt
      ensures St() == old(St()).QueueInsert(bno, cnt)
    {
      if cacheBase == 0 {
        cacheBase, cacheCnt := bno, cnt;
        return;
      }
      if BlockInIp(bno) == BlockInIp(cacheBase) {
        if bno == cacheBase + cacheCnt {
          cacheCnt := cacheCnt + cnt;
          return;
        }
        if bno + cnt == cacheBase {
          cacheBase, cacheCnt := cacheBase - cnt, cacheCnt + cnt;
          return;
        }
      }
      FreeQueueInsertNocache(cacheBase, cacheCnt);
      cacheBase, cacheCnt := bno, cnt;
    }

    /** apfs_ip_find_free() */
    method IpFindFree() returns (n: nat)
      ensures n == St().IpFindFree()
    {
      var k := FindZero(ipUsed);
      n := if k >= |ipUsed| then 0 else ipBase + k;
    }

    /** Gets a bitmap block that this transaction may change. */
    method OwnBitmap(i: nat) returns (status: Status)
      requires St().Shape() && i < |chunks|
      modifies this
      ensures St() == old(St()).OwnBitmap(i)
      ensures status == if old(St().OldBitmap(i) && St().IpFindFree() == 0) then Corrupted else Ok
    {
      status := Ok;
      var c := chunks[i];
      if c.bmap != 0 && c.xid >= xid {
        return;
      }
      var bits := if c.bmap == 0 then Clear(nbits) else disk[c.bmap];
      var n := IpFindFree();
      if n == 0 {
        status := Corrupted;
        return;
      }
      if c.bmap != 0 {
        FreeQueueInsert(c.bmap, 1);
      }
      disk := disk[n := bits];
      ipUsed := ipUsed[n - ipBase := true];
      chunks := chunks[i := c.(bmap := n, xid := xid)];
    }

    /** Gets a chunk-info block that this transaction may change. */
    method OwnCib(k: nat) returns (status: Status)
      requires St().Shape() && k < |cibs|
      modifies this
      ensures St() == old(St()).OwnCib(k)
      ensures status == if old(cibs[k].xid < xid && St().IpFindFree() == 0) then Corrupted else Ok
    {
      status := Ok;
      if cibs[k].xid >= xid {
        return;
      }
      var n := IpFindFree();
      if n == 0 {
        status := Corrupted;
        return;
      }
      FreeQueueInsert(cibs[k].bno, 1);
      cibs := cibs[k := Cib(n, xid)];
      ipUsed := ipUsed[n - ipBase := true];
    }

    /** The part of apfs_chunk_alloc_free() that makes the copies. */
    method Prepare(i: nat) returns (status: Status)
      requires St().Shape() && i < |chunks|
      modifies this
      ensures status == if old(Zeros(ipUsed) < St().Need(i)) then Corrupted else Ok
      ensures status == Ok ==> St() == old(St()).Prepare(i)
      ensures status == Corrupted ==> Zeros(ipUsed) == 0
    {
      hide Zeros, Sm.MoveBitmap, Sm.MoveCib, Sm.IpFindFree, Sm.Bits, Sm.Need;
      PrepareChunk(St(), i);
      RoomAfter(St(), i);
      status := OwnBitmap(i);
      if status == Ok {
        status := OwnCib(i / perCib);
      }
    }

    /** apfs_chunk_alloc_free() for an allocation. */
    method ChunkAllocateBlock(i: nat) returns (status: Status, bno: nat)
      requires St().Shape() && St().Counted() && i < |chunks|
      modifies this
      ensures status == NoSpace <==> old(chunks[i].free == 0)
      ensures status == NoSpace ==> St() == old(St())
      ensures status != NoSpace ==> AllocResult(old(St()), i, status, bno, St())
    {
      hide Zeros, FindZero, SumFree, Sm.Prepare, Sm.Need, Sm.CibOf;
      status, bno := Ok, 0;
      if chunks[i].free < 1 {
        status := NoSpace;
        return;
      }
      PrepareChunk(St(), i);
      FreeInSum(chunks, i);
      FirstZeroInPrefix(St().Bits(i), chunks[i].size);
      status := Prepare(i);
      if status == Ok {
        var bits := disk[chunks[i].bmap];
        var k := FindZero(bits);
        bno := i * nbits + k;
        if bno == 0 {
          status := Corrupted;
        } else {
          disk := disk[chunks[i].bmap := bits[k := true]];
          chunks := chunks[i := chunks[i].(free := chunks[i].free - 1)];
          freeCount := freeCount - 1;
        }
      }
    }

    /** apfs_chunk_alloc_free() for a free block, which also goes for apfs_main_free(). */
    method MainFree(b: nat) returns (status: Status)
      requires St().Shape() && St().ChunkOf(b) < |chunks|
      modifies this
      ensures status == Ok <==>
              old(chunks[St().ChunkOf(b)].bmap != 0 && St().Bits(St().ChunkOf(b))[St().BitOf(b)] &&
                  Zeros(ipUsed) >= St().Need(St().ChunkOf(b)))
      ensures status == Ok ==> St() == old(St()).Free(b)
      ensures status == Corrupted ==>
              Zeros(ipUsed) == 0 || old(chunks[St().ChunkOf(b)].bmap == 0 || !St().Bits(St().ChunkOf(b))[St().BitOf(b)])
      ensures status != NoSpace
    {
      hide Zeros, FindZero, SumFree, Sm.Prepare, Sm.Need, Sm.CibOf;
      var i := b / nbits;
      if chunks[i].bmap == 0 {
        status := Corrupted;
        return;
      }
      PrepareChunk(St(), i);
      status := Prepare(i);
      if status == Ok {
        var bits := disk[chunks[i].bmap];
        if !bits[b % nbits] {
          status := Corrupted;
        } else {
          disk := disk[chunks[i].bmap := bits[b % nbits := false]];
          chunks := chunks[i := chunks[i].(free := chunks[i].free + 1)];
          freeCount := freeCount + 1;
        }
      }
    }

    /** apfs_cib_allocate_block() */
    method CibAllocateBlock(k: nat, backwards: bool) returns (status: Status, bno: nat, ghost c: nat)
      requires St().Shape() && St().Counted() && k < |cibs|
      modifies this
      ensures status == NoSpace <==> old(forall i :: 0 <= i < |chunks| && St().CibOf(i) == k ==> chunks[i].free == 0)
      ensures status == NoSpace ==> St() == old(St())
      ensures status != NoSpace ==>
        c < |old(chunks)| && old(St()).CibOf(c) == k && Chosen(old(St()), c, bno, backwards, k, status, St())
    {
      hide Sm.Counted, Sm.CibOf, AllocResult, FirstChunk;
      status, bno, c := NoSpace, 0, 0;
      ghost var was := St();
      var first, count := FirstChunk(perCib, k), ChunkCount(perCib, |chunks|, k);
      forall i | 0 <= i < |chunks|
        ensures was.CibOf(i) == k <==> first <= i < first + count
      {
        CibRange(was, i, k);
      }
      var j := 0;
      while j < count
        invariant j <= count && St() == was && status == NoSpace
        invariant forall i ::
          first <= i < first + count && Before(i, if backwards then first + count - 1 - j else first + j, backwards) ==>
          was.chunks[i].free == 0
      {
        var i := if backwards then first + count - 1 - j else first + j;
        c := i;
        status, bno := ChunkAllocateBlock(i);
        if status != NoSpace {
          return;
        }
        j := j + 1;
      }
    }

    /** apfs_spaceman_allocate_block(). The block was free, was not freed earlier in this
        transaction and is not used by the last checkpoint. The allocation fails for lack
        of space exactly when the free count is zero. */
    method AllocateBlock(backwards: bool, ghost live: set<nat>, ghost committed: set<nat>,
                         ghost kept: map<nat, seq<bool>>)
      returns (status: Status, bno: nat)
      requires St().Inv(live, 0, 0, committed, kept) && xid > 0
      modifies this
      ensures status == NoSpace <==> old(freeCount) == 0
      ensures status == NoSpace ==> St() == old(St())
      ensures status == Corrupted ==> Zeros(old(ipUsed)) < 2
      ensures status == Ok ==>
        bno !in live && bno !in committed && old(St()).Queued(bno) == 0 && !old(St()).UsedBit(bno)
      ensures status == Ok ==> St().Inv(live + {bno}, 0, 0, committed, kept)
      ensures status == Ok ==> FirstFit(old(St()), bno, backwards)
      ensures status == Ok ==> xid == old(xid) && forall b: nat :: old(St()).UsedBit(b) ==> St().UsedBit(b)
      ensures status == Ok ==> AllocatedIn(old(St()), old(St()).ChunkOf(bno), bno, St())
    {
      hide Zeros, SumFree, FindZero, Sm.Owned, Sm.Counted, Sm.Protects, Sm.PoolReserved, Sm.Dated, Sm.Bits, Sm.Alloc,
        Sm.UsedBit, Chosen;
      status, bno := NoSpace, 0;
      ghost var was := St();
      var j := 0;
      while j < |cibs|
        invariant j <= |cibs| && St() == was && status == NoSpace
        invariant forall i ::
          0 <= i < |chunks| && Before(was.CibOf(i), if backwards then |cibs| - 1 - j else j, backwards) ==>
          chunks[i].free == 0
      {
        var k := if backwards then |cibs| - 1 - j else j;
        ghost var c;
        status, bno, c := CibAllocateBlock(k, backwards);
        if status != NoSpace {
          AllocateFrom(was, live, committed, kept, c, k, status, bno, backwards, St());
          return;
        }
        j := j + 1;
      }
      SumFreeZero(was, live, committed, kept);
    }

    /** One block of a record of a queue is marked as free, in apfs_flush_fq_rec(). */
    method FlushBlock(b: nat, ghost lo: nat, ghost live: set<nat>, ghost committed: set<nat>,
                      ghost kept: map<nat, seq<bool>>)
      returns (status: Status)
      requires St().Inv(live, lo, b, committed, kept) && lo <= b && xid > 0 && PoolCache(St())
      requires b !in committed && St().Queued(b) > 0
      modifies this
      ensures status == Ok ==>
        St().Inv(live, lo, b + 1, committed, kept) && PoolCache(St()) && PoolOnly(old(St()), St())
      ensures status == Ok ==> Copies(old(St()), St())
      ensures status == Ok && old(BlockInIp(b)) ==> ipQueue == old(ipQueue)
      ensures status != Ok ==> !old(BlockInIp(b)) && Zeros(ipUsed) == 0
    {
      hide Zeros, Sm.Free, Sm.Need, Sm.Queued, Sm.Own, Sm.Protects, Sm.Counted, Sm.Dated, Sm.ChunkOf, Sm.BitOf,
        AllCurrent, Sm.CibOf;
      status := Ok;
      if BlockInIp(b) {
        assert St().OwnedBlock(live, lo, b, b);
        IpMarkFreeFrees(St(), live, lo, b, committed, kept);
        MemoryCopies(St(), St().IpMarkFree(b));
        ipUsed := ipUsed[b - ipBase := false];
      } else {
        FreeKeeps(St(), live, lo, b, committed, kept);
        FreePool(St(), live, b);
        if Zeros(ipUsed) >= St().Need(St().ChunkOf(b)) { FreeCopies(St(), live, lo, committed, kept, b); }
        status := MainFree(b);
      }
    }

    /** apfs_flush_fq_rec(): frees the blocks of the last record of a transaction. */
    method FlushFqRec(ip: bool, target: nat, ghost live: set<nat>, ghost committed: set<nat>,
                      ghost kept: map<nat, seq<bool>>)
      returns (status: Status, found: bool, ghost last: Whole)
      requires St().Inv(live, 0, 0, committed, kept) && 0 < target < xid && PoolCache(St())
      modifies this
      ensures last.Since(old(St()), live, committed, kept) && (status == Ok ==> last == Whole(St(), 0, 0))
      ensures !found <==> LastOf(old(Queue(ip)), target) < 0
      ensures !found ==> status == Ok && St() == old(St())
      ensures found && status == Ok ==>
              && St().Inv(live, 0, 0, committed, kept) && PoolCache(St()) && xid == old(xid)
              && Queue(ip) == Without(old(Queue(ip)), LastOf(old(Queue(ip)), target))
              && if ip then mainQueue == old(mainQueue) else old(AllCurrent(ipQueue, xid)) ==> AllCurrent(ipQueue, xid)
      ensures status != Ok ==> !ip && Zeros(ipUsed) == 0
    {
      hide Zeros, Sm.Queued, Sm.Inv, AllCurrent, PoolCache, Sm.Dequeue, LastOf, Copies;
      status, found, last := Ok, false, Whole(St(), 0, 0);
      NothingSince(St(), live, committed, kept);
      var k := LastOf(Queue(ip), target);
      if k < 0 {
        return;
      }
      found := true;
      var rec := Queue(ip)[k];
      ghost var was := St();
      var b := rec.bno;
      StartRecord(St(), live, committed, kept, b);
      while b < rec.bno + rec.len
        invariant status == Ok
        invariant rec.bno <= b <= rec.bno + rec.len
        invariant St().Inv(live, rec.bno, b, committed, kept) && PoolCache(St()) && PoolOnly(was, St())
        invariant ip ==> ipQueue == was.ipQueue
        invariant Copies(was, St())
      {
        QueuedBlock(St(), ip, k, b, live, rec.bno, committed, kept);
        last := Whole(St(), rec.bno, b);
        status := FlushBlock(b, rec.bno, live, committed, kept);
        if status != Ok {
          return;
        }
        CopiesThen(was, last.sm, St());
        b := b + 1;
      }
      DequeueKeeps(St(), live, rec.bno, b, committed, kept, ip, k);
      DequeueCopies(was, St(), live, rec.bno, b, committed, kept, ip, k);
      DequeueIs(St(), ip, k);
      if ip {
        ipQueue := Without(ipQueue, k);
      } else {
        mainQueue := Without(mainQueue, k);
      }
      last := Whole(St(), 0, 0);
    }

    /** apfs_flush_free_queue(): every record of an older transaction goes. */
    method FlushFreeQueue(ip: bool, ghost live: set<nat>, ghost committed: set<nat>, ghost kept: map<nat, seq<bool>>)
      returns (status: Status, ghost last: Whole)
      requires St().Inv(live, 0, 0, committed, kept) && PoolCache(St())
      requires AllOld(Queue(ip), xid) && (ip || AllCurrent(ipQueue, xid))
      modifies this
      ensures last.Since(old(St()), live, committed, kept) && (status == Ok ==> last == Whole(St(), 0, 0))
      ensures status == Ok ==>
              && St().Inv(live, 0, 0, committed, kept) && PoolCache(St()) && xid == old(xid)
              && Queue(ip) == [] && AllCurrent(ipQueue, xid) && (ip ==> mainQueue == old(mainQueue))
      ensures status != Ok ==> !ip && Zeros(ipUsed) == 0
    {
      hide Zeros, Sm.Inv, PoolCache, LastOf, Without, AllOld, AllCurrent, Whole.Since;
      status, last := Ok, Whole(St(), 0, 0);
      ghost var was := St();
      NothingSince(was, live, committed, kept);
      var oldest := OldestXid(Queue(ip));
      while oldest != 0
        invariant status == Ok && xid == old(xid) && oldest == OldestXid(Queue(ip)) && AllOld(Queue(ip), xid)
        invariant St().Inv(live, 0, 0, committed, kept) && PoolCache(St())
        invariant if ip then mainQueue == old(mainQueue) else AllCurrent(ipQueue, xid)
        invariant last == Whole(St(), 0, 0) && last.Since(was, live, committed, kept)
        decreases |Queue(ip)|
      {
        OldestIsOld(Queue(ip), xid);
        ghost var q := Queue(ip);
        var found := true;
        while found
          invariant status == Ok && xid == old(xid) && AllOld(Queue(ip), xid)
          invariant St().Inv(live, 0, 0, committed, kept) && PoolCache(St())
          invariant if ip then mainQueue == old(mainQueue) else AllCurrent(ipQueue, xid)
          invariant |Queue(ip)| < |q| || (Queue(ip) == q && found)
          invariant last == Whole(St(), 0, 0) && last.Since(was, live, committed, kept)
          decreases |Queue(ip)|, found
        {
          WithoutOld(Queue(ip), oldest, xid);
          ghost var mid := last;
          status, found, last := FlushFqRec(ip, oldest, live, committed, kept);
          SinceThen(was, mid, last, live, committed, kept);
          if status != Ok {
            return;
          }
        }
        oldest := OldestXid(Queue(ip));
      }
      OldestIsOld(Queue(ip), xid);
      assert AllCurrent([], xid) by { NoRecords(xid); }
    }

    /** A transaction starts with the flush of both queues. Its predecessor has become the
        last checkpoint: nothing that it uses may be touched from now on. Afterwards, the
        blocks in use outside of the pool are exactly those of the filesystem. */
    method StartTransaction(next: nat, ghost live: set<nat>, ghost committed: set<nat>, ghost kept: map<nat, seq<bool>>)
      returns (status: Status, ghost last: Whole)
      requires St().Inv(live, 0, 0, committed, kept) && cacheBase == 0 && next > xid
      modifies this
      ensures last.Since(old(St()).(xid := next), live, live + old(St().OwnBlocks()), old(disk))
      ensures status == Ok ==> last == Whole(St(), 0, 0)
      ensures status == Ok ==>
              && xid == next && St().Inv(live, 0, 0, live + old(St().OwnBlocks()), old(disk))
              && mainQueue == [] && AllCurrent(ipQueue, xid)
              && forall b: nat :: !St().InIp(b) ==> (St().UsedBit(b) <==> b in live)
      ensures status != Ok ==> Zeros(ipUsed) == 0
    {
      hide Zeros, Sm.Inv, Sm.UsedBit, Sm.OwnBlocks, AllOld, AllCurrent, Whole.Since;
      ghost var used, contents := live + St().OwnBlocks(), disk;
      QueuesOld(St(), live, committed, kept, next);
      CommitProtects(St(), live, committed, kept, next);
      xid := next;
      ghost var was := St();
      status, last := FlushFreeQueue(true, live, used, contents);
      if status == Ok {
        ghost var mid := last;
        status, last := FlushFreeQueue(false, live, used, contents);
        SinceThen(was, mid, last, live, used, contents);
        if status == Ok {
          MainExact(St(), live, used, contents);
        }
      }
    }

    /** The last step of a transaction before its checkpoint is written. */
    method CommitQueues(ghost live: set<nat>, ghost committed: set<nat>, ghost kept: map<nat, seq<bool>>)
      requires St().Inv(live, 0, 0, committed, kept) && xid > 0
      modifies this
      ensures St().Inv(live, 0, 0, committed, kept) && cacheBase == 0 && xid == old(xid) &&
        St() == old(St()).FlushCache()
      ensures freeCount == old(freeCount) && disk == old(disk) && ipUsed == old(ipUsed)
      ensures forall b: nat :: St().Queued(b) == old(St()).Queued(b)
    {
      hide Sm.Owned, Sm.Protects, Sm.PoolReserved, Sm.Dated, Sm.Counted, Sm.Shape, Sm.Queued, Inserted;
      ghost var was := St();
      FlushCacheKeeps(was, live, committed, kept);
      if cacheBase != 0 {
        FreeQueueInsertNocache(cacheBase, cacheCnt);
        cacheBase, cacheCnt := 0, 0;
      }
      forall b: nat
        ensures St().Queued(b) == was.Queued(b)
      {
        FlushCacheQueued(was, b);
      }
    }

    function Queue(ip: bool): seq<FqRec>
      reads this
    {
      if ip then ipQueue else mainQueue
    }
  }

  /** The last moment before a failure, if there was one: no block was being freed. */
  datatype Whole = Whole(sm: Sm, lo: nat, hi: nat) {
    ghost predicate Since(was: Sm, live: set<nat>, committed: set<nat>, kept: map<nat, seq<bool>>) {
      Copies(was, sm) && sm.Inv(live, lo, hi, committed, kept)
    }
  }

  lemma NothingSince(sm: Sm, live: set<nat>, committed: set<nat>, kept: map<nat, seq<bool>>)
    requires sm.Inv(live, 0, 0, committed, kept)
    ensures Whole(sm, 0, 0).Since(sm, live, committed, kept)
  {
    hide Sm.Counted, Sm.Owned, Sm.Protects, Sm.PoolReserved, Sm.Dated, Copies;
    NoCopies(sm);
  }

  lemma SinceThen(was: Sm, mid: Whole, last: Whole, live: set<nat>, committed: set<nat>, kept: map<nat, seq<bool>>)
    requires mid.Since(was, live, committed, kept) && last.Since(mid.sm, live, committed, kept)
    ensures last.Since(was, live, committed, kept)
  {
    hide Sm.Inv, Copies;
    CopiesThen(was, mid.sm, last.sm);
  }

  lemma FreeCopies(sm: Sm, live: set<nat>, lo: nat, committed: set<nat>, kept: map<nat, seq<bool>>, b: nat)
    requires sm.Inv(live, lo, b, committed, kept) && sm.ChunkOf(b) < |sm.chunks|
    requires Zeros(sm.ipUsed) >= sm.Need(sm.ChunkOf(b))
    ensures Copies(sm, sm.Free(b))
  {
    hide Zeros, Sm.Counted, Sm.Owned, Sm.Protects, Sm.PoolReserved, Sm.Dated, Sm.Need, Sm.Prepare, Copies;
    SetCopies(sm, sm.ChunkOf(b), sm.BitOf(b), false);
  }

  lemma DequeueCopies(was: Sm, sm: Sm, live: set<nat>, lo: nat, hi: nat, committed: set<nat>,
                      kept: map<nat, seq<bool>>, ip: bool, k: nat)
    requires Copies(was, sm) && sm.Inv(live, lo, hi, committed, kept) && k < |if ip then sm.ipQueue else sm.mainQueue|
    ensures Copies(was, sm.Dequeue(ip, k))
  {
    hide Sm.Counted, Sm.Owned, Sm.Protects, Sm.PoolReserved, Sm.Dated, Copies;
    MemoryCopies(sm, sm.Dequeue(ip, k));
    CopiesThen(was, sm, sm.Dequeue(ip, k));
  }

  lemma FlushCacheQueued(sm: Sm, b: nat)
    requires sm.CacheOk()
    ensures sm.FlushCache().Queued(b) == sm.Queued(b)
  {
    EnqueueCounts(sm, sm.cacheBase, sm.cacheCnt, b);
  }

  /** apfs_free_queue_oldest_xid() */
  function OldestXid(q: seq<FqRec>): nat { if q == [] then 0 else q[0].xid }

  ghost predicate AllOld(q: seq<FqRec>, xid: nat) {
    forall k :: 0 <= k < |q| ==> 0 < q[k].xid < xid
  }

  lemma OldestIsOld(q: seq<FqRec>, xid: nat)
    requires AllOld(q, xid)
    ensures OldestXid(q) == 0 ==> q == []
    ensures OldestXid(q) != 0 ==> OldestXid(q) < xid && LastOf(q, OldestXid(q)) >= 0
  {
  }

  lemma WithoutOld(q: seq<FqRec>, target: nat, xid: nat)
    requires AllOld(q, xid)
    ensures LastOf(q, target) >= 0 ==>
      |Without(q, LastOf(q, target))| < |q| && AllOld(Without(q, LastOf(q, target)), xid)
  {
    hide LastOf;
  }

  lemma NoRecords(xid: nat)
    ensures AllCurrent([], xid)
  {
  }

  lemma QueuesOld(sm: Sm, live: set<nat>, committed: set<nat>, kept: map<nat, seq<bool>>, next: nat)
    requires sm.Inv(live, 0, 0, committed, kept) && next > sm.xid
    ensures AllOld(sm.ipQueue, next) && AllOld(sm.mainQueue, next)
  {
    hide Sm.Owned, Sm.Counted, Sm.Protects, Sm.PoolReserved;
  }

  /** With an empty main queue, the main bitmaps are the live blocks. */
  lemma MainExact(sm: Sm, live: set<nat>, committed: set<nat>, kept: map<nat, seq<bool>>)
    requires sm.Inv(live, 0, 0, committed, kept) && sm.mainQueue == [] && PoolCache(sm)
    ensures forall b: nat :: !sm.InIp(b) ==> (sm.UsedBit(b) <==> b in live)
  {
    hide Sm.Counted, Sm.Protects, Sm.UsedBit, BmapTimes, CibTimes, Times;
    forall b: nat | !sm.InIp(b)
      ensures sm.UsedBit(b) <==> b in live
    {
      assert sm.OwnedBlock(live, 0, 0, b);
      NotOwn(sm, live, b);
    }
  }

  lemma NotOwn(sm: Sm, live: set<nat>, b: nat)
    requires sm.Shape() && sm.CacheOk() && sm.PoolReserved(live) && sm.Dated() && sm.mainQueue == [] &&
      PoolCache(sm) && !sm.InIp(b)
    ensures sm.Own(b) == 0 && sm.Queued(b) == 0
  {
    hide Sm.MainBit, InOrder;
    if b != 0 { NoBmap(sm.chunks, b); }
    NoCib(sm.cibs, b);
    NoRec(sm.ipQueue, b);
  }

  lemma {:induction false} NoBmap(chunks: seq<Chunk>, b: nat)
    requires forall i :: 0 <= i < |chunks| ==> chunks[i].bmap != b
    ensures BmapTimes(chunks, b) == 0
  {
    if chunks != [] { NoBmap(chunks[..|chunks| - 1], b); }
  }

  lemma {:induction false} NoCib(cibs: seq<Cib>, b: nat)
    requires forall k :: 0 <= k < |cibs| ==> cibs[k].bno != b
    ensures CibTimes(cibs, b) == 0
  {
    if cibs != [] { NoCib(cibs[..|cibs| - 1], b); }
  }

  lemma {:induction false} NoRec(q: seq<FqRec>, b: nat)
    requires forall k :: 0 <= k < |q| ==> !q[k].Covers(b)
    ensures Times(q, b) == 0
  {
    if q != [] { NoRec(q[..|q| - 1], b); }
  }

  lemma DequeueIs(sm: Sm, ip: bool, k: nat)
    requires k < |if ip then sm.ipQueue else sm.mainQueue|
    ensures PoolCache(sm.Dequeue(ip, k)) == PoolCache(sm)
    ensures sm.Dequeue(ip, k) ==
            if ip then sm.(ipQueue := Without(sm.ipQueue, k)) else sm.(mainQueue := Without(sm.mainQueue, k))
  {
  }

  /** An empty range of blocks is no range. */
  lemma StartRecord(sm: Sm, live: set<nat>, committed: set<nat>, kept: map<nat, seq<bool>>, b: nat)
    requires sm.Inv(live, 0, 0, committed, kept)
    ensures sm.Inv(live, b, b, committed, kept)
  {
    hide Sm.Own, Sm.Queued, Sm.UsedBit, Sm.PoolReserved, Sm.Dated, Sm.Counted, Sm.Protects, Sm.Shape;
    forall c: nat
      ensures sm.OwnedBlock(live, b, b, c)
    {
      assert sm.OwnedBlock(live, 0, 0, c);
    }
  }

  lemma QueuedBlock(sm: Sm, ip: bool, k: nat, b: nat, live: set<nat>, lo: nat, committed: set<nat>,
                    kept: map<nat, seq<bool>>)
    requires sm.Inv(live, lo, b, committed, kept)
    requires var q := if ip then sm.ipQueue else sm.mainQueue; k < |q| && q[k].Covers(b) && q[k].xid < sm.xid
    ensures b !in committed && sm.Queued(b) > 0 && sm.InIp(b) == ip
  {
    TimesMember(if ip then sm.ipQueue else sm.mainQueue, k, b);
  }

  /** The first free block of the first chunk that has any, in the order of the search. */
  ghost predicate FirstFit(sm: Sm, bno: nat, backwards: bool)
    requires sm.Shape()
  {
    && sm.InMain(bno) && sm.BitOf(bno) == FindZero(sm.Bits(sm.ChunkOf(bno)))
    && forall i :: 0 <= i < |sm.chunks| && Before(i, sm.ChunkOf(bno), backwards) ==> sm.chunks[i].free == 0
  }

  lemma {:induction false} NoneFree(chunks: seq<Chunk>)
    requires forall i :: 0 <= i < |chunks| ==> chunks[i].free == 0
    ensures SumFree(chunks) == 0
  {
    if chunks != [] { NoneFree(chunks[..|chunks| - 1]); }
  }

  lemma SumFreeZero(sm: Sm, live: set<nat>, committed: set<nat>, kept: map<nat, seq<bool>>)
    requires sm.Inv(live, 0, 0, committed, kept)
    requires forall i :: 0 <= i < |sm.chunks| ==> sm.chunks[i].free == 0
    ensures sm.freeCount == 0
  {
    NoneFree(sm.chunks);
  }

  lemma CibOrder(i: nat, c: nat, perCib: nat)
    requires perCib > 0 && i <= c
    ensures i / perCib <= c / perCib
  {
    var p, q := i / perCib, c / perCib;
    assert p * perCib <= i && c < q * perCib + perCib;
    if q < p { MulGap(q, p, perCib); }
  }

  /** The block is the first free one of a chunk. */
  ghost predicate AllocatedIn(sm: Sm, i: nat, bno: nat, s: Sm)
    requires sm.Shape()
  {
    && i < |sm.chunks| && sm.chunks[i].free > 0 && Zeros(sm.ipUsed) >= sm.Need(i)
    && bno == sm.Addr(i, FindZero(sm.Bits(i))) && s == sm.Alloc(i)
  }

  lemma AllocateFrom(sm: Sm, live: set<nat>, committed: set<nat>, kept: map<nat, seq<bool>>, c: nat, k: nat,
                     status: Status, bno: nat, backwards: bool, s: Sm)
    requires sm.Inv(live, 0, 0, committed, kept) && sm.xid > 0 && c < |sm.chunks| && sm.CibOf(c) == k &&
      status != NoSpace
    requires forall i :: 0 <= i < |sm.chunks| && Before(sm.CibOf(i), k, backwards) ==> sm.chunks[i].free == 0
    requires Chosen(sm, c, bno, backwards, k, status, s)
    ensures sm.freeCount > 0 && (status == Corrupted ==> Zeros(sm.ipUsed) < 2)
    ensures status == Ok ==> bno !in live && bno !in committed && sm.Queued(bno) == 0 && !sm.UsedBit(bno)
    ensures status == Ok ==> s.Inv(live + {bno}, 0, 0, committed, kept) && FirstFit(sm, bno, backwards)
    ensures status == Ok ==> s.xid == sm.xid && forall b: nat :: sm.UsedBit(b) ==> s.UsedBit(b)
    ensures status == Ok ==> AllocatedIn(sm, sm.ChunkOf(bno), bno, s)
  {
    hide Zeros, SumFree, FindZero, Sm.Protects, Sm.PoolReserved, Sm.Dated, Sm.Bits, Sm.Alloc, Sm.UsedBit, Sm.CibOf,
      Sm.Addr, Sm.ChunkOf, Sm.BitOf, Sm.Own, Sm.Queued;
    FreeInSum(sm.chunks, c);
    if Zeros(sm.ipUsed) >= sm.Need(c) {
      AllocKeeps(sm, live, 0, 0, committed, kept, c);
      assert sm.OwnedBlock(live, 0, 0, bno);
      AddrOf(sm, c, FindZero(sm.Bits(c)));
      forall i | 0 <= i < |sm.chunks| && Before(i, c, backwards)
        ensures sm.chunks[i].free == 0
      {
        EarlierChunk(sm, i, c, backwards);
      }
      AllocXid(sm, c);
      forall b: nat | sm.UsedBit(b)
        ensures sm.Alloc(c).Shape() && sm.Alloc(c).UsedBit(b)
      {
        AllocUsed(sm, live, committed, kept, c, b);
      }
    }
  }

  lemma AllocXid(sm: Sm, c: nat)
    requires sm.Shape() && c < |sm.chunks|
    ensures sm.Alloc(c).xid == sm.xid
  {
  }

  lemma EarlierChunk(sm: Sm, i: nat, c: nat, backwards: bool)
    requires sm.perCib > 0 && Before(i, c, backwards)
    ensures Before(sm.CibOf(i), sm.CibOf(c), backwards) || sm.CibOf(i) == sm.CibOf(c)
  {
    if backwards { CibOrder(c, i, sm.perCib); } else { CibOrder(i, c, sm.perCib); }
  }

  /** The order in which the search visits the chunks. */
  predicate Before(i: int, c: int, backwards: bool) {
    if backwards then i > c else i < c
  }

  function FirstChunk(perCib: nat, k: nat): nat { k * perCib }

  function ChunkCount(perCib: nat, n: nat, k: nat): (count: nat)
    ensures FirstChunk(perCib, k) + count <= n || count == 0
  {
    var first := FirstChunk(perCib, k);
    if first + perCib <= n then perCib else if first <= n then n - first else 0
  }

  lemma CibRange(sm: Sm, i: nat, k: nat)
    requires sm.perCib > 0 && i < |sm.chunks|
    ensures var first := FirstChunk(sm.perCib, k);
      sm.CibOf(i) == k <==> first <= i < first + ChunkCount(sm.perCib, |sm.chunks|, k)
  {
    hide FirstChunk, Sm.CibOf;
    CibBounds(sm, i, k);
  }

  lemma CibBounds(sm: Sm, i: nat, k: nat)
    requires sm.perCib > 0
    ensures sm.CibOf(i) == k <==> FirstChunk(sm.perCib, k) <= i < FirstChunk(sm.perCib, k) + sm.perCib
  {
    var n := sm.perCib;
    var q, r := i / n, i % n;
    assert i == q * n + r;
    if q < k { MulGap(q, k, n); } else if q > k { MulGap(k, q, n); }
  }

  /** What apfs_chunk_alloc_free() does for a chunk with free blocks. */
  ghost predicate AllocResult(sm: Sm, c: nat, status: Status, bno: nat, s: Sm)
    requires sm.Shape() && c < |sm.chunks|
  {
    && (status == Corrupted <==> Zeros(sm.ipUsed) < sm.Need(c) || sm.Addr(c, FindZero(sm.Bits(c))) == 0)
    && (status == Ok ==> s == sm.Alloc(c) && bno == sm.Addr(c, FindZero(sm.Bits(c))))
  }

  /** The block comes from the first chunk of the cib that has any. */
  ghost predicate Chosen(sm: Sm, c: nat, bno: nat, backwards: bool, k: nat, status: Status, s: Sm)
    requires sm.Shape() && c < |sm.chunks|
  {
    && sm.chunks[c].free > 0
    && (forall i :: 0 <= i < |sm.chunks| && sm.CibOf(i) == k && Before(i, c, backwards) ==> sm.chunks[i].free == 0)
    && AllocResult(sm, c, status, bno, s)
  }
}