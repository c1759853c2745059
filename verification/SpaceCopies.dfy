/** Copy-on-write in the space manager (spaceman.c): what a transaction changes is always in
    blocks that it has copied, so never in those of the last checkpoint. */
module SpaceCopies {
  import opened Bitmaps
  import opened Spaceman

  predicate CurrentChunk(sm: Sm, i: nat)
    requires i < |sm.chunks|
  {
    sm.chunks[i].bmap != 0 && sm.chunks[i].xid == sm.xid
  }

  /** The bitmap blocks that the transaction has copied. */
  function CurrentBitmaps(sm: Sm): set<nat> {
    set i | 0 <= i < |sm.chunks| && CurrentChunk(sm, i) :: sm.chunks[i].bmap
  }

  function CurrentCibs(sm: Sm): set<nat> {
    set k | 0 <= k < |sm.cibs| && sm.cibs[k].xid == sm.xid :: sm.cibs[k].bno
  }

  function CurrentBlocks(sm: Sm): set<nat> { CurrentBitmaps(sm) + CurrentCibs(sm) }

  /** None of them belongs to the last checkpoint. */
  lemma CurrentSpared(sm: Sm, live: set<nat>, lo: nat, hi: nat, committed: set<nat>, kept: map<nat, seq<bool>>)
    requires sm.Inv(live, lo, hi, committed, kept)
    ensures CurrentBlocks(sm) !! committed && CurrentBlocks(sm) <= sm.OwnBlocks()
    ensures forall b :: b in sm.OwnBlocks() ==> sm.InIp(b)
  {
    hide Sm.Counted, Sm.Owned;
  }

  /** A chunk stays as it was, or else its info and its bitmap are now in copies. Copies are
      only made once. */
  predicate ChunkCopied(s: Sm, t: Sm, i: nat)
    requires i < |s.chunks| == |t.chunks| && s.perCib > 0 && t.perCib == s.perCib
    requires |s.cibs| == |t.cibs| && s.CibOf(i) < |s.cibs|
  {
    && (t.chunks[i] == s.chunks[i] || (CurrentChunk(t, i) && t.cibs[s.CibOf(i)].xid == t.xid))
    && (CurrentChunk(s, i) ==> CurrentChunk(t, i) && t.chunks[i].bmap == s.chunks[i].bmap)
  }

  predicate CibCopied(s: Sm, t: Sm, k: nat)
    requires k < |s.cibs| == |t.cibs|
  {
    t.cibs[k] == s.cibs[k] || (s.cibs[k].xid != s.xid && t.cibs[k].xid == t.xid)
  }

  ghost predicate SameSizes(s: Sm, t: Sm) {
    && t == t.(nbits := s.nbits, perCib := s.perCib, ipBase := s.ipBase, xid := s.xid)
    && |t.chunks| == |s.chunks| && |t.cibs| == |s.cibs| && |t.ipUsed| == |s.ipUsed|
    && s.perCib > 0 && forall i :: 0 <= i < |s.chunks| ==> s.CibOf(i) < |s.cibs|
  }

  ghost predicate BitmapsCopied(s: Sm, t: Sm) {
    && (forall b :: b in s.disk ==> b in t.disk)
    && (forall b :: b in t.disk && (b !in s.disk || s.disk[b] != t.disk[b]) ==> b in CurrentBitmaps(t))
  }

  /** Between two moments of a transaction, all changes are in blocks that it has copied. */
  ghost predicate Copies(s: Sm, t: Sm) {
    && SameSizes(s, t) && BitmapsCopied(s, t)
    && (forall i :: 0 <= i < |s.chunks| ==> ChunkCopied(s, t, i))
    && (forall k :: 0 <= k < |s.cibs| ==> CibCopied(s, t, k))
  }

  lemma NoCopies(s: Sm)
    requires s.Shape()
    ensures Copies(s, s)
  {
    hide Sm.CibOf;
  }

  /** Changes to the queues and to the bitmaps of the pool are kept in memory. */
  lemma MemoryCopies(s: Sm, t: Sm)
    requires s.Shape() && t == t.(nbits := s.nbits, perCib := s.perCib, ipBase := s.ipBase, xid := s.xid,
                                  chunks := s.chunks, cibs := s.cibs, disk := s.disk)
    requires |t.ipUsed| == |s.ipUsed|
    ensures Copies(s, t)
  {
    hide Sm.CibOf;
  }

  lemma BitmapsThen(s: Sm, t: Sm, u: Sm)
    requires Copies(s, t) && Copies(t, u)
    ensures BitmapsCopied(s, u)
  {
    hide Sm.CibOf;
    forall b | b in u.disk && (b !in s.disk || s.disk[b] != u.disk[b])
      ensures b in CurrentBitmaps(u)
    {
      if b in CurrentBitmaps(t) {
        var i :| 0 <= i < |t.chunks| && CurrentChunk(t, i) && t.chunks[i].bmap == b;
        assert ChunkCopied(t, u, i);
      }
    }
  }

  lemma CopiesThen(s: Sm, t: Sm, u: Sm)
    requires Copies(s, t) && Copies(t, u)
    ensures Copies(s, u)
  {
    hide CurrentBitmaps, BitmapsCopied;
    BitmapsThen(s, t, u);
    forall i | 0 <= i < |s.chunks|
      ensures ChunkCopied(s, u, i)
    {
      assert ChunkCopied(s, t, i) && ChunkCopied(t, u, i) && CibCopied(t, u, s.CibOf(i));
    }
    forall k | 0 <= k < |s.cibs|
      ensures CibCopied(s, u, k)
    {
      assert CibCopied(s, t, k) && CibCopied(t, u, k);
    }
  }

  /** The blocks of the manager are those that it had before, or copies. */
  lemma OwnCopied(s: Sm, t: Sm)
    requires Copies(s, t)
    ensures t.OwnBlocks() <= s.OwnBlocks() + CurrentBlocks(t) && CurrentBlocks(s) <= CurrentBlocks(t)
  {
    hide Sm.CibOf, BitmapsCopied;
    forall b | b in t.OwnBlocks()
      ensures b in s.OwnBlocks() + CurrentBlocks(t)
    {
      if i :| 0 <= i < |t.chunks| && t.chunks[i].bmap != 0 && t.chunks[i].bmap == b {
        assert ChunkCopied(s, t, i);
      } else {
        var k :| 0 <= k < |t.cibs| && t.cibs[k].bno == b;
        assert CibCopied(s, t, k);
      }
    }
    forall b | b in CurrentBlocks(s)
      ensures b in CurrentBlocks(t)
    {
      if i :| 0 <= i < |s.chunks| && CurrentChunk(s, i) && s.chunks[i].bmap == b {
        assert ChunkCopied(s, t, i);
      } else {
        var k :| 0 <= k < |s.cibs| && s.cibs[k].xid == s.xid && s.cibs[k].bno == b;
        assert CibCopied(s, t, k);
      }
    }
  }

  // A change to a chunk

  /** Both the bitmap of a chunk and its info may be changed. */
  predicate MayChange(sm: Sm, i: nat)
    requires sm.perCib > 0 && i < |sm.chunks| && sm.CibOf(i) < |sm.cibs|
  {
    CurrentChunk(sm, i) && sm.cibs[sm.CibOf(i)].xid == sm.xid
  }

  lemma PrepareIs(sm: Sm, i: nat)
    requires sm.Shape() && sm.Dated() && i < |sm.chunks| && Zeros(sm.ipUsed) >= sm.Need(i)
    ensures var t := sm.Prepare(i);
      && SameSizes(sm, t) && MayChange(t, i)
      && t.chunks == sm.chunks[i := t.chunks[i]] && t.cibs == sm.cibs[sm.CibOf(i) := t.cibs[sm.CibOf(i)]]
      && (CurrentChunk(sm, i) ==> t.chunks[i].bmap == sm.chunks[i].bmap)
      && (sm.cibs[sm.CibOf(i)].xid == sm.xid ==> t.cibs[sm.CibOf(i)] == sm.cibs[sm.CibOf(i)])
      && (t.disk == sm.disk || t.disk == sm.disk[t.chunks[i].bmap := sm.Bits(i)])
  {
    hide Zeros, Sm.QueueInsert, Sm.Bits, InOrder, Sm.Sided, Sm.OneSided;
    RoomAfter(sm, i);
    PrepareChunk(sm, i);
  }

  lemma ChangeCopies(sm: Sm, t: Sm, i: nat)
    requires SameSizes(sm, t) && i < |sm.chunks| && t.CibOf(i) < |t.cibs| && MayChange(t, i)
    requires t.chunks == sm.chunks[i := t.chunks[i]] && t.cibs == sm.cibs[sm.CibOf(i) := t.cibs[sm.CibOf(i)]]
    requires CurrentChunk(sm, i) ==> t.chunks[i].bmap == sm.chunks[i].bmap
    requires sm.cibs[sm.CibOf(i)].xid == sm.xid ==> t.cibs[sm.CibOf(i)] == sm.cibs[sm.CibOf(i)]
    requires forall b :: b in t.disk <==> b in sm.disk || b == t.chunks[i].bmap
    requires forall b :: b in sm.disk && b != t.chunks[i].bmap ==> t.disk[b] == sm.disk[b]
    ensures Copies(sm, t)
  {
    assert CurrentChunk(t, i);
    assert t.chunks[i].bmap in CurrentBitmaps(t);
  }

  lemma SetBitIs(s: Sm, i: nat, k: nat, v: bool)
    requires s.Shape() && i < |s.chunks| && k < s.nbits && (v ==> s.chunks[i].free > 0 && s.freeCount > 0)
    ensures var t := s.SetBit(i, k, v);
      && t == s.(disk := t.disk, chunks := s.chunks[i := t.chunks[i]], freeCount := t.freeCount)
      && t.chunks[i].bmap == s.chunks[i].bmap && t.chunks[i].xid == s.chunks[i].xid
      && t.disk.Keys == s.disk.Keys + {s.chunks[i].bmap}
      && forall b :: b in s.disk && b != s.chunks[i].bmap ==> t.disk[b] == s.disk[b]
  {
    hide Sm.CibOf, Sm.Bits;
  }

  /** Allocation and freeing only write to copies. */
  lemma SetCopies(sm: Sm, i: nat, k: nat, v: bool)
    requires sm.Shape() && sm.Dated() && i < |sm.chunks| && k < sm.nbits && Zeros(sm.ipUsed) >= sm.Need(i)
    requires v ==> sm.Prepare(i).chunks[i].free > 0 && sm.freeCount > 0
    ensures Copies(sm, sm.Prepare(i).SetBit(i, k, v))
  {
    hide Zeros, Sm.QueueInsert, Sm.Bits, Sm.Dated, Sm.Prepare, Sm.SetBit, Sm.Need;
    var s := sm.Prepare(i);
    PrepareIs(sm, i);
    SetBitIs(s, i, k, v);
    ChangeCopies(sm, s.SetBit(i, k, v), i);
  }

  lemma AllocCopies(sm: Sm, live: set<nat>, lo: nat, hi: nat, committed: set<nat>, kept: map<nat, seq<bool>>, i: nat)
    requires sm.Inv(live, lo, hi, committed, kept) && sm.xid > 0 && i < |sm.chunks|
    requires sm.chunks[i].free > 0 && Zeros(sm.ipUsed) >= sm.Need(i)
    ensures Copies(sm, sm.Alloc(i))
  {
    hide Zeros, SumFree, FindZero, Sm.Prepare, Sm.Owned, Sm.Protects, Sm.Dated, Sm.Bits, Sm.SetBit, Sm.UsedBit,
      Sm.InMain, Sm.CibOf;
    var s, k := sm.Prepare(i), FindZero(sm.Bits(i));
    PrepareKeeps(sm, live, lo, hi, committed, kept, i);
    FirstZeroInPrefix(sm.Bits(i), sm.chunks[i].size);
    FreeInSum(sm.chunks, i);
    SetCopies(sm, i, k, true);
  }
}
