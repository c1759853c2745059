/** A data stream (extents.c): the catalog's list of logical extents, with one
    cached extent in front of it that may be dirty, over the shared tree of
    physical extents. Addresses and lengths are in blocks, the stream size is in
    bytes. */
module Dstreams {
  import opened Extents
  import P = PhysExtents

  // Reference accounting

  /** References to a block that do not come from this stream's extents: the tree's
      count for it minus the times that the block list has it, modulo 2^32. */
  ghost function Others(recs: seq<P.PhysExt>, f: seq<nat>, p: nat): int {
    (P.At(recs, p).Count() - multiset(f)[p]) % P.REFCNT_MOD
  }

  /** Between two states, the tree changed by exactly what the block list did. */
  ghost predicate Conserved(recs: seq<P.PhysExt>, f: seq<nat>, recs': seq<P.PhysExt>, f': seq<nat>) {
    forall p: nat :: p > 0 ==> Others(recs', f', p) == Others(recs, f, p)
  }

  /** How often a block is listed; holes don't count. */
  ghost function Times(d: seq<nat>, p: nat): nat { if p == 0 then 0 else multiset(d)[p] }

  /** One reference was put for each listed block, and a block was freed exactly if that was
      all that the live tree had for it. */
  ghost predicate Dropped(was: P.Refs, now: P.Refs, d: seq<nat>) {
    forall p: nat :: DroppedAt(was, now, d, p)
  }

  ghost predicate DroppedAt(was: P.Refs, now: P.Refs, d: seq<nat>, p: nat) {
    && P.At(now.recs, p) == P.Puts(P.At(was.recs, p), Times(d, p))
    && P.TimesFreed(now.freed, p) == P.TimesFreed(was.freed, p) + P.PutsFree(P.At(was.recs, p), Times(d, p))
  }

  /** The blocks were put, or forgotten if they are holes. */
  ghost predicate PutOf(was: P.Refs, sparse: nat, now: P.Refs, sparse': nat, d: seq<nat>) {
    Dropped(was, now, d) && sparse' == sparse - Zeros(d)
  }

  lemma DroppedCount(was: P.Refs, now: P.Refs, d: seq<nat>, p: nat)
    requires P.Sorted(was.recs) && Dropped(was, now, d) && p > 0
    ensures P.At(now.recs, p).Count() == (P.At(was.recs, p).Count() - multiset(d)[p]) % P.REFCNT_MOD
  {
    hide P.At, P.Puts, P.PutsFree, P.TimesFreed, P.Sorted;
    P.CountInRange(was.recs, p);
    P.PutsAre(P.At(was.recs, p), Times(d, p));
    assert DroppedAt(was, now, d, p);
  }

  lemma DroppedConserves(was: P.Refs, f: seq<nat>, now: P.Refs, f': seq<nat>, d: seq<nat>)
    requires P.Sorted(was.recs) && Dropped(was, now, d)
    requires forall p: nat :: p > 0 ==> multiset(f)[p] == multiset(f')[p] + multiset(d)[p]
    ensures Conserved(was.recs, f, now.recs, f')
  {
    hide P.At, P.Sorted, Dropped;
    forall p: nat | p > 0
      ensures Others(now.recs, f', p) == Others(was.recs, f, p)
    {
      DroppedCount(was, now, d, p);
      var c: int, m: int, m': int := P.At(was.recs, p).Count(), multiset(d)[p], multiset(f')[p];
      P.ModStep(c - m, -m');
    }
  }

  lemma DroppedElsewhere(was: P.Refs, now: P.Refs, d: seq<nat>, p: nat)
    requires Dropped(was, now, d) && p !in d
    ensures P.At(now.recs, p) == P.At(was.recs, p) && P.TimesFreed(now.freed, p) == P.TimesFreed(was.freed, p)
  {
    assert DroppedAt(was, now, d, p);
  }

  lemma NothingDropped(was: P.Refs)
    ensures Dropped(was, was, [])
  {
  }

  lemma HoleDropped(was: P.Refs, e: Ext)
    requires e.IsHole()
    ensures Dropped(was, was, Blocks(e))
  {
    hide P.At, P.TimesFreed;
    forall p: nat
      ensures DroppedAt(was, was, Blocks(e), p)
    {
      if p > 0 { BlocksCount(e, p); }
    }
  }

  lemma RangeDropped(was: P.Refs, now: P.Refs, e: Ext)
    requires P.Sorted(was.recs) && !e.IsHole()
    requires P.Adjusted(was.recs, was.freed, now.recs, now.freed, e.phys, e.phys + e.len, -1)
    ensures Dropped(was, now, Blocks(e))
  {
    hide P.At, P.TimesFreed, P.Sorted;
    forall p: nat
      ensures DroppedAt(was, now, Blocks(e), p)
    {
      P.CountInRange(was.recs, p);
      if p > 0 { BlocksCount(e, p); }
      P.PutsFreeMore(P.At(was.recs, p), 0, 0);
    }
  }

  // The abstract stream

  /** The block list with part of it replaced, maybe past its end. */
  function Overlay(f: seq<nat>, at: nat, c: seq<nat>): seq<nat>
    requires at <= |f|
  {
    f[..at] + c + if at + |c| <= |f| then f[at + |c|..] else []
  }

  /** A plain block map after a write: holes fill the space before it. */
  function Written(f: seq<nat>, dsblock: nat, bno: nat): seq<nat> {
    if dsblock < |f| then f[dsblock := bno] else f + Holes(dsblock - |f|) + [bno]
  }

  lemma TailZeros(f: seq<nat>, at: nat, e: Ext)
    requires at <= |f| && !e.IsHole()
    ensures Zeros(f[..at] + Blocks(e)) == Zeros(f) - Zeros(f[at..])
  {
    BlocksCount(e, 1);
    assert f == f[..at] + f[at..];
  }

  lemma RestIsSuffix(f: seq<nat>, e: Ext, n: nat)
    requires e.End() == |f| && f[e.addr..] == Blocks(e) && n <= e.len
    ensures f[e.addr + n..] == Blocks(Rest(e, n))
    ensures Zeros(f[e.addr + n..]) <= Zeros(f)
  {
    assert f[e.addr + n..] == f[e.addr..][n..];
    assert f == f[..e.addr + n] + f[e.addr + n..];
  }

  /** How much of the last record a new tail extends rather than replaces. */
  ghost function Kept(s: seq<Ext>, ext: Ext): nat {
    if s != [] && s[|s| - 1].addr == ext.addr && s[|s| - 1].phys == ext.phys then s[|s| - 1].len else 0
  }

  /** The blocks that a new tail pushes out. */
  ghost function Lost(s: seq<Ext>, ext: Ext): seq<nat>
    requires ext.addr <= |Flat(s)|
  {
    if Kept(s, ext) > 0 then [] else Flat(s)[ext.addr..]
  }

  lemma LostBlocks(s: seq<Ext>, ext: Ext)
    requires Contiguous(s) && LastAddr(s) <= ext.addr <= |Flat(s)|
    ensures s == [] ==> Lost(s, ext) == []
    ensures s != [] ==> ext.addr <= s[|s| - 1].End()
    ensures s != [] && Kept(s, ext) == 0 ==> Lost(s, ext) == Blocks(Rest(s[|s| - 1], ext.addr - s[|s| - 1].addr))
  {
    if s != [] {
      FlatLast(s);
      RestIsSuffix(Flat(s), s[|s| - 1], ext.addr - s[|s| - 1].addr);
    }
  }

  lemma LostZeros(s: seq<Ext>, ext: Ext)
    requires Contiguous(s) && LastAddr(s) <= ext.addr <= |Flat(s)| && !ext.IsHole()
    ensures Zeros(Lost(s, ext)) <= Zeros(Flat(s))
    ensures Zeros(Flat(s)[..ext.addr] + Blocks(ext)) == Zeros(Flat(s)) - Zeros(Lost(s, ext))
  {
    TailZeros(Flat(s), ext.addr, ext);
    if s != [] && Kept(s, ext) > 0 {
      FlatLast(s);
      BlocksCount(s[|s| - 1], 1);
    }
  }

  lemma OneZero(f: seq<nat>, at: nat, p: nat)
    requires at < |f| && p > 0
    ensures Zeros([f[at]]) <= Zeros(f) && Zeros(f[at := p]) == Zeros(f) - Zeros([f[at]])
  {
    assert f == f[..at] + [f[at]] + f[at + 1..];
    assert f[at := p] == f[..at] + [p] + f[at + 1..];
  }

  lemma MidResult(s: seq<Ext>, k: nat, ext: Ext)
    requires Contiguous(s) && k < |s| && s[k].addr <= ext.addr && ext.End() <= s[k].End() && ext.len == 1 &&
      !ext.IsHole()
    ensures var t := Overwritten(s, k, ext);
            && Contiguous(t) && ext in t && ext.addr < |Flat(s)| && Flat(t) == Flat(s)[ext.addr := ext.phys]
            && Zeros([Flat(s)[ext.addr]]) <= Zeros(Flat(s))
            && Zeros(Flat(t)) == Zeros(Flat(s)) - Zeros([Flat(s)[ext.addr]])
  {
    FlatOverwritten(s, k, ext);
    OneZero(Flat(s), ext.addr, ext.phys);
    var p := Opt(s[k].(len := ext.addr - s[k].addr));
    assert Overwritten(s, k, ext)[k + |p|] == ext;
  }

  lemma OverlayTail(f: seq<nat>, at: nat, c: seq<nat>)
    requires at <= |f| <= at + |c|
    ensures Overlay(f, at, c) == f[..at] + c
  {}

  lemma OverlayOne(f: seq<nat>, at: nat, c: seq<nat>)
    requires at < |f| && |c| == 1
    ensures Overlay(f, at, c) == f[at := c[0]]
  {}

  /** A dirty extent reaches the tree after its old blocks were put. */
  lemma FlushConserves(was: P.Refs, f: seq<nat>, mid: P.Refs, d: seq<nat>,
                       recs2: seq<P.PhysExt>, f2: seq<nat>, added: Ext, from: nat)
    requires P.Sorted(was.recs) && P.Sorted(mid.recs) && Dropped(was, mid, d) && !added.IsHole()
    requires 0 < from <= added.phys && P.Extended(mid.recs, recs2, from, added.phys + added.len)
    requires multiset(f2) + multiset(d) == multiset(f) + multiset(Blocks(added))
    requires from < added.phys ==> d == []
    ensures Conserved(was.recs, f, recs2, f2) <==> from == added.phys
  {
    hide Dropped, P.At, P.Sorted;
    var recs, recs1 := was.recs, mid.recs;
    forall p: nat | p > 0
      ensures Others(recs2, f2, p) ==
        (P.At(recs, p).Count() - multiset(f)[p] + if from <= p < added.phys then 1 else 0) % P.REFCNT_MOD
    {
      BlocksCount(added, p);
      P.CountInRange(recs1, p);
      DroppedCount(was, mid, d, p);
      assert (multiset(f2) + multiset(d))[p] == (multiset(f) + multiset(Blocks(added)))[p];
      var c: int, m: int, m2: int := P.At(recs, p).Count(), multiset(d)[p], multiset(f2)[p];
      P.ModStep(c - m, (if from <= p < added.phys + added.len then 1 else 0) - m2);
    }
    if from < added.phys {
      var x: int, y: int := P.At(recs, from).Count(), multiset(f)[from];
      assert Others(recs2, f2, from) == (x - y + 1) % P.REFCNT_MOD;
      assert Others(recs, f, from) == (x - y) % P.REFCNT_MOD;
    }
  }

  lemma TailCounts(s: seq<Ext>, ext: Ext, clean: nat)
    requires Contiguous(s) && LastAddr(s) <= ext.addr <= |Flat(s)| && !ext.IsHole() && clean < ext.len
    requires if clean > 0 then s != [] && s[|s| - 1] == Ext(ext.addr, clean, ext.phys) else ext.phys !in Flat(s)
    ensures clean > 0 ==> Lost(s, ext) == []
    ensures multiset(Flat(s)[..ext.addr] + Blocks(ext)) + multiset(Lost(s, ext)) ==
      multiset(Flat(s)) + multiset(Blocks(Rest(ext, clean)))
  {
    var f := Flat(s);
    assert f == f[..ext.addr] + f[ext.addr..];
    BlocksSplit(ext, clean);
    if s != [] {
      FlatLast(s);
      assert Kept(s, ext) > 0 ==> ext.phys == f[ext.addr..][0];
    }
  }

  lemma OneCounts(f: seq<nat>, ext: Ext)
    requires ext.addr < |f| && ext.len == 1 && !ext.IsHole()
    ensures multiset(f[ext.addr := ext.phys]) + multiset([f[ext.addr]]) == multiset(f) + multiset(Blocks(Rest(ext, 0)))
  {
    assert Blocks(Rest(ext, 0)) == [ext.phys];
  }

  /** Blocks that no extent here uses are left without a record. */
  ghost predicate StillAbsent(recs: seq<P.PhysExt>, recs': seq<P.PhysExt>, used: seq<nat>) {
    forall p: nat :: p > 0 && p !in used && P.At(recs, p) == P.Absent ==> P.At(recs', p) == P.Absent
  }

  lemma AbsentThroughFlush(was: P.Refs, mid: P.Refs, d: seq<nat>, recs2: seq<P.PhysExt>,
                           f: seq<nat>, ext: Ext, from: nat)
    requires P.Sorted(recs2) && Dropped(was, mid, d) && (forall p: nat :: p in d ==> p in f)
    requires !ext.IsHole() && ext.phys <= from && P.Extended(mid.recs, recs2, from, ext.phys + ext.len)
    ensures StillAbsent(was.recs, recs2, f + Blocks(ext))
  {
    hide Dropped, P.At, P.Sorted;
    forall p: nat | p > 0 && p !in f + Blocks(ext) && P.At(was.recs, p) == P.Absent
      ensures P.At(recs2, p) == P.Absent
    {
      DroppedElsewhere(was, mid, d, p);
      P.CountInRange(recs2, p);
      BlocksCount(ext, p);
    }
  }

  /** apfs_size_to_blocks(): blocks needed for a size in bytes. */
  function SizeToBlocks(size: nat, bs: nat): nat
    requires bs > 0
  {
    if size == 0 then 0 else 1 + SizeToBlocks(if size > bs then size - bs else 0, bs)
  }

  /** Does a stream of this size end at or before a block boundary? The block count
      is the least one that does. */
  predicate EndsBy(size: nat, block: nat, bs: nat) { block * bs >= size }

  lemma {:induction false} EndsByBlocks(size: nat, block: nat, bs: nat)
    requires bs > 0
    ensures EndsBy(size, block, bs) <==> block >= SizeToBlocks(size, bs)
    decreases size
  {
    if size > 0 {
      if block == 0 {
        assert block * bs == 0;
      } else {
        EndsByBlocks(if size > bs then size - bs else 0, block - 1, bs);
        assert block * bs == (block - 1) * bs + bs;
      }
    }
  }

  // Growing and replacing the cached extent

  lemma LastRecord(s: seq<Ext>, e: Ext)
    requires Contiguous(s) && e in s && e.End() >= |Flat(s)|
    ensures e == s[|s| - 1] && e.End() == |Flat(s)| && Flat(s)[e.addr..] == Blocks(e)
  {
    var i :| 0 <= i < |s| && s[i] == e;
    FlatLength(s);
    FlatLast(s);
  }

  lemma BlocksGrow(e: Ext)
    requires e.len > 0
    ensures Blocks(e.(len := e.len + 1)) == Blocks(e) + [if e.IsHole() then 0 else e.phys + e.len]
  {}

  /** What growing the cached extent does to the block map: it appends the next
      physical block, but to a hole it can only append another hole. */
  lemma GrownView(f: seq<nat>, e: Ext, view: seq<nat>)
    requires e.len > 0 && e.addr <= |f| <= e.End() && view == Overlay(f, e.addr, Blocks(e))
    ensures Overlay(f, e.addr, Blocks(e.(len := e.len + 1))) == view + [if e.IsHole() then 0 else e.phys + e.len]
    ensures Written(view, |view|, e.phys + e.len) == view + [e.phys + e.len]
    ensures e.IsHole() ==> view + [0] != view + [e.len]
  {
    BlocksGrow(e);
    assert (view + [0])[|view|] == 0 && (view + [e.len])[|view|] == e.len;
  }

  lemma CleanView(f: seq<nat>, e: Ext)
    requires e.addr <= |f| && f[e.addr..] == Blocks(e)
    ensures Overlay(f, e.addr, Blocks(e)) == f
  {}

  /** The block map with room made for a block, and then with the block in it. */
  lemma PaddedView(f: seq<nat>, dsblock: nat, bno: nat, g: seq<nat>)
    requires bno > 0 && bno !in f
    requires g == f + Holes(if dsblock > |f| then dsblock - |f| else 0)
    ensures dsblock <= |g| && bno !in g && |g| == if dsblock < |f| then |f| else dsblock
    ensures Overlay(g, dsblock, Blocks(Ext(dsblock, 1, bno))) == Written(f, dsblock, bno)
  {
    assert Blocks(Ext(dsblock, 1, bno)) == [bno];
    if dsblock < |f| {
      assert g == f;
    }
  }

  lemma NotPadded(f: seq<nat>, g: seq<nat>, p: nat)
    requires p > 0 && p !in f && exists n: nat :: g == f + Holes(n)
    ensures p !in g
  {}

  lemma LastBelow(s: seq<Ext>)
    requires Contiguous(s)
    ensures LastAddr(s) <= |Flat(s)| && (|Flat(s)| > 0 ==> LastAddr(s) < |Flat(s)|)
  {
    FlatLength(s);
  }

  lemma HoleAppended(s: seq<Ext>, end: nat)
    requires Contiguous(s) && |Flat(s)| < end
    ensures var t := s + [Ext(|Flat(s)|, end - |Flat(s)|, 0)];
            && Contiguous(t) && Flat(t) == Flat(s) + Holes(end - |Flat(s)|)
            && Zeros(Flat(t)) == Zeros(Flat(s)) + end - |Flat(s)|
  {
    hide Blocks, Holes;
    var hole := Ext(|Flat(s)|, end - |Flat(s)|, 0);
    FlatLength(s);
    FlatConcat(s, [hole]);
    FlatOne(hole);
    assert Blocks(hole) == Holes(hole.len);
    HolesCount(hole.len, 0);
  }

  lemma OverlayMember(f: seq<nat>, at: nat, c: seq<nat>, p: nat)
    requires at <= |f| && p in Overlay(f, at, c)
    ensures p in f || p in c
  {}

  // Truncation

  datatype Shrunk = Done | Again | Missing

  lemma DroppedTwice(was: P.Refs, mid: P.Refs, d1: seq<nat>, now: P.Refs, d2: seq<nat>)
    requires P.Sorted(was.recs) && Dropped(was, mid, d1) && Dropped(mid, now, d2)
    ensures Dropped(was, now, d2 + d1)
  {
    hide P.At, P.TimesFreed, P.Sorted, P.Puts, P.PutsFree;
    forall p: nat
      ensures DroppedAt(was, now, d2 + d1, p)
    {
      P.CountInRange(was.recs, p);
      assert DroppedAt(was, mid, d1, p) && DroppedAt(mid, now, d2, p);
      P.PutsMore(P.At(was.recs, p), Times(d1, p), Times(d2, p));
      P.PutsFreeMore(P.At(was.recs, p), Times(d1, p), Times(d2, p));
    }
  }

  lemma CutConserves(was: P.Refs, f: seq<nat>, now: P.Refs, n: nat)
    requires P.Sorted(was.recs) && n <= |f| && Dropped(was, now, f[n..])
    ensures Conserved(was.recs, f, now.recs, f[..n])
  {
    assert f == f[..n] + f[n..];
    DroppedConserves(was, f, now, f[..n], f[n..]);
  }

  lemma TailRemoved(s: seq<Ext>)
    requires Contiguous(s) && s != []
    ensures LastAddr(s) < |Flat(s)| == s[|s| - 1].End()
    ensures Contiguous(s[..|s| - 1]) && Flat(s[..|s| - 1]) == Flat(s)[..LastAddr(s)]
    ensures Flat(s)[LastAddr(s)..] == Blocks(s[|s| - 1])
    ensures Zeros(Flat(s)[..LastAddr(s)]) == Zeros(Flat(s)) - Zeros(Blocks(s[|s| - 1])) >= 0
  {
    FlatLast(s);
    assert Flat(s) == Flat(s)[..LastAddr(s)] + Flat(s)[LastAddr(s)..];
  }

  lemma TailCut(s: seq<Ext>, end: nat)
    requires Contiguous(s) && s != [] && LastAddr(s) < end <= |Flat(s)|
    ensures end <= s[|s| - 1].End()
    ensures var e := s[|s| - 1]; var n := end - e.addr; var t := s[|s| - 1 := e.(len := n)];
            && Contiguous(t) && Flat(t) == Flat(s)[..end] && Flat(s)[end..] == Blocks(Rest(e, n))
            && Zeros(Flat(s)[..end]) == Zeros(Flat(s)) - Zeros(Blocks(Rest(e, n))) >= 0
  {
    hide Flat, Contiguous;
    var e := s[|s| - 1];
    FlatLast(s);
    var n := end - e.addr;
    RestIsSuffix(Flat(s), e, n);
    FlatNewTail(s, e.(len := n));
    NewTailContiguous(s, e.(len := n));
    CutPrefix(Flat(s), e, n);
    assert NewTail(s, e.(len := n)) == s[|s| - 1 := e.(len := n)];
    assert Flat(s) == Flat(s)[..end] + Flat(s)[end..];
  }

  lemma FlatAll(s: seq<Ext>)
    requires Contiguous(s)
    ensures Flat(s)[..|Flat(s)|] == Flat(s) && Flat(s)[|Flat(s)|..] == []
    ensures s == [] ==> Flat(s) == []
  {}

  lemma ExactEnd(size: nat, block: nat, bs: nat)
    requires bs > 0 && block * bs == size
    ensures SizeToBlocks(size, bs) == block
  {
    EndsByBlocks(size, block, bs);
    if block > 0 {
      assert (block - 1) * bs < size;
      EndsByBlocks(size, block - 1, bs);
    }
  }

  lemma SomeBlocks(size: nat, bs: nat)
    requires bs > 0
    ensures SizeToBlocks(size, bs) == 0 <==> size == 0
  {}

  lemma CutAgain(f: seq<nat>, n: nat, m: nat)
    requires m <= n <= |f|
    ensures f[..n][m..] + f[n..] == f[m..] && f[..n][..m] == f[..m]
  {}

  /** The block map after its stale last block was rewritten, if it was. */
  function Zeroed(f: seq<nat>, zeroes: bool, tailBno: nat): seq<nat> {
    if zeroes && |f| > 0 then f[|f| - 1 := tailBno] else f
  }

  lemma {:induction false} MoreBlocks(a: nat, b: nat, bs: nat)
    requires bs > 0
    ensures a <= b ==> SizeToBlocks(a, bs) <= SizeToBlocks(b, bs)
    decreases b
  {
    if 0 < a <= b { MoreBlocks(if a > bs then a - bs else 0, if b > bs then b - bs else 0, bs); }
  }

  lemma ConservedThen(recs: seq<P.PhysExt>, f: seq<nat>, recs1: seq<P.PhysExt>, f1: seq<nat>, recs2: seq<P.PhysExt>,
                      f2: seq<nat>)
    requires Conserved(recs1, f1, recs2, f2)
    ensures Conserved(recs, f, recs2, f2) <==> Conserved(recs, f, recs1, f1)
  {}

  lemma ConservedSince(recs: seq<P.PhysExt>, f: seq<nat>, recs1: seq<P.PhysExt>, f1: seq<nat>, recs2: seq<P.PhysExt>,
                       f2: seq<nat>)
    requires Conserved(recs, f, recs1, f1)
    ensures Conserved(recs, f, recs2, f2) <==> Conserved(recs1, f1, recs2, f2)
  {}

  lemma OverlayPadded(f: seq<nat>, at: nat, c: seq<nat>, n: nat)
    requires at + |c| <= |f|
    ensures Overlay(f + Holes(n), at, c) == Overlay(f, at, c) + Holes(n) && |Overlay(f, at, c)| == |f|
  {}

  // Cloning

  lemma AllBlocks(s: seq<Ext>, k: nat)
    requires Contiguous(s) && k <= |s|
    ensures s[..0] == [] && Flat([]) == []
    ensures k < |s| ==> s[k].End() <= |Flat(s)| && s[k].End() == if k + 1 < |s| then s[k + 1].addr else |Flat(s)|
    ensures k < |s| ==> s[k].addr < |Flat(s)|
    ensures s == [] ==> |Flat(s)| == 0
    ensures s != [] ==> s[0].addr == 0
  {
    FlatLength(s);
    if k < |s| { FlatPiece(s, k); }
  }

  lemma SameRecord(s: seq<Ext>, k: nat, e: Ext)
    requires Contiguous(s) && k < |s| && e in s && e.addr <= s[k].addr < e.End()
    ensures e == s[k]
  {
    var i :| 0 <= i < |s| && s[i] == e;
    if i < k { Ordered(s, i, k); } else if k < i { Ordered(s, k, i); }
  }

  lemma TakenConserves(recs0: seq<P.PhysExt>, recs: seq<P.PhysExt>, f: seq<(nat, nat)>, recs': seq<P.PhysExt>,
                       g: seq<(nat, nat)>, e: Ext, h: seq<nat>)
    requires P.Sorted(recs) && !e.IsHole()
    requires P.Adjusted(recs, f, recs', g, e.phys, e.phys + e.len, 1)
    requires Conserved(recs0, [], recs, h)
    ensures Conserved(recs0, [], recs', h + Blocks(e))
  {
    hide P.At, P.Sorted, Blocks, P.Adjusted;
    forall p: nat | p > 0 ensures Others(recs', h + Blocks(e), p) == Others(recs, h, p) {
      BlocksCount(e, p);
      P.AdjustedAt(recs, f, recs', g, e.phys, e.phys + e.len, 1, p);
      P.AdjustCount(P.At(recs, p), 1);
      var c: int, m: int := P.At(recs, p).Count(), multiset(h)[p];
      if e.phys <= p < e.phys + e.len { P.ModStep(c + 1, -m - 1); }
    }
  }

  lemma HoleConserves(recs0: seq<P.PhysExt>, recs: seq<P.PhysExt>, e: Ext, h: seq<nat>)
    requires e.IsHole() && Conserved(recs0, [], recs, h)
    ensures Conserved(recs0, [], recs, h + Blocks(e))
  {
    hide P.At, Blocks;
    forall p: nat | p > 0 ensures Others(recs, h + Blocks(e), p) == Others(recs, h, p) { BlocksCount(e, p); }
  }

  lemma NothingChanged(recs: seq<P.PhysExt>)
    ensures Conserved(recs, [], recs, Flat([]))
  {}

  lemma WrittenInside(f: seq<nat>, dsblock: nat, bno: nat)
    requires dsblock < |f|
    ensures Written(f, dsblock, bno) == f[dsblock := bno]
  {}

  lemma AppendPosition(s: seq<Ext>, e: Ext)
    requires Contiguous(s) && e.addr == |Flat(s)|
    ensures Sorted(s) && FloorExt(s, e.addr) == |s| - 1 && Inserted(s, |s|, e) == s + [e]
  {
    FlatLength(s);
    FloorUnique(s, e.addr, |s| - 1);
  }

  lemma HolesConserve(recs: seq<P.PhysExt>, f: seq<nat>, recs': seq<P.PhysExt>, f': seq<nat>, n: nat)
    ensures Conserved(recs, f, recs', f' + Holes(n)) <==> Conserved(recs, f, recs', f')
  {
    forall p: nat | p > 0 ensures Others(recs', f' + Holes(n), p) == Others(recs', f', p) { HolesCount(n, p); }
  }

  /** The guard for growing the cached extent in apfs_dstream_get_new_block(). */
  predicate CanGrow(recs: seq<P.PhysExt>, numSnapshots: nat, dirty: bool, cache: Ext, isTail: bool, dsblock: nat,
                    bno: nat)
    requires P.Sorted(recs)
  {
    && (dirty || !P.RangeInSnap(recs, numSnapshots, cache.phys, cache.len))
    && cache.len > 0 && isTail && dsblock == cache.End() && bno == cache.phys + cache.len
  }

  /** A stream and the references to blocks, as a value. */
  datatype State = State(bs: nat, size: nat, numSnapshots: nat, exts: seq<Ext>, cache: Ext, dirty: bool, clean: nat,
                         sparse: nat, refs: P.Refs) {
    ghost predicate Ok() {
      bs > 0 && P.Sorted(refs.recs) && (dirty ==> cache.len > 0 && cache.addr <= |Flat(exts)|)
    }

    predicate Grows(dsblock: nat, bno: nat)
      requires P.Sorted(refs.recs)
    {
      CanGrow(refs.recs, numSnapshots, dirty, cache, EndsBy(size, cache.End(), bs), dsblock, bno)
    }

    predicate StaleTail() { bs > 0 && size > sparse * bs && size % bs != 0 }

    /** The tree has nothing yet about the new blocks of a dirty extent. */
    ghost predicate Unwritten()
      requires Ok()
    {
      dirty ==>
        && clean < cache.len && (clean > 0 ==> Kept(exts, cache) > 0 && cache.End() >= SizeToBlocks(size, bs))
        && forall p: nat :: cache.phys + clean <= p < cache.phys + cache.len ==> P.At(refs.recs, p) == P.Absent
    }

    /** The blocks that a flush pushes out of the catalog. */
    ghost function Pushed(): seq<nat>
      requires Ok()
    {
      if !dirty then []
      else if cache.End() >= SizeToBlocks(size, bs) then Lost(exts, cache)
      else if cache.addr < |Flat(exts)| then [Flat(exts)[cache.addr]] else []
    }

    /** What the tree will say about a block once the cached extent is flushed. */
    ghost function AfterFlush(b: nat): P.Ref
      requires Ok()
    {
      if !dirty then P.At(refs.recs, b)
      else if clean > 0 then P.At(P.WithExtent(refs.recs, cache.phys, cache.len), b)
      else if cache.phys <= b < cache.phys + cache.len then P.Present(P.New, 1)
      else P.Puts(P.At(refs.recs, b), Times(Pushed(), b))
    }

    /** How often the flush will free it. */
    ghost function FlushFrees(b: nat): nat
      requires Ok()
    {
      P.PutsFree(P.At(refs.recs, b), Times(Pushed(), b))
    }
  }

  /** The cached extent has been flushed. */
  ghost predicate FlushedTo(s: State, now: P.Refs)
    requires s.Ok()
  {
    forall b: nat :: FlushedAt(s, now, b)
  }

  ghost predicate FlushedAt(s: State, now: P.Refs, b: nat)
    requires s.Ok()
  {
    && P.At(now.recs, b) == s.AfterFlush(b)
    && P.TimesFreed(now.freed, b) == P.TimesFreed(s.refs.freed, b) + s.FlushFrees(b)
  }

  lemma FlushedIs(s: State, mid: P.Refs, now: P.Refs)
    requires s.Ok() && s.dirty && P.Sorted(mid.recs) && Dropped(s.refs, mid, s.Pushed())
    requires s.clean > 0 ==> mid == s.refs && s.Pushed() == []
    requires s.clean == 0 ==>
      forall b :: s.cache.phys <= b < s.cache.phys + s.cache.len ==> P.At(mid.recs, b) == P.Absent
    requires now == P.Refs(P.WithExtent(mid.recs, s.cache.phys, s.cache.len), mid.freed)
    ensures FlushedTo(s, now)
  {
    hide P.At, P.TimesFreed, P.Sorted, P.WithExtent, State.Pushed, P.Puts, P.PutsFree;
    forall b: nat
      ensures FlushedAt(s, now, b)
    {
      assert DroppedAt(s.refs, mid, s.Pushed(), b);
      if s.clean == 0 { P.WithFresh(mid.recs, s.cache.phys, s.cache.len, b); }
    }
  }

  /** After the flush, some blocks were put as well. */
  ghost predicate Settled(s: State, d: seq<nat>, now: P.Refs)
    requires s.Ok()
  {
    forall b: nat :: SettledAt(s, d, now, b)
  }

  ghost predicate SettledAt(s: State, d: seq<nat>, now: P.Refs, b: nat)
    requires s.Ok()
  {
    && P.At(now.recs, b) == P.Puts(s.AfterFlush(b), Times(d, b))
    && P.TimesFreed(now.freed, b) ==
      P.TimesFreed(s.refs.freed, b) + s.FlushFrees(b) + P.PutsFree(s.AfterFlush(b), Times(d, b))
  }

  lemma FlushedThenDropped(s: State, mid: P.Refs, d: seq<nat>, now: P.Refs)
    requires s.Ok() && FlushedTo(s, mid) && Dropped(mid, now, d)
    ensures Settled(s, d, now)
  {
    hide P.At, P.TimesFreed, P.Sorted, P.Puts, P.PutsFree, State.AfterFlush, State.FlushFrees, State.Ok;
    forall b: nat
      ensures SettledAt(s, d, now, b)
    {
      assert FlushedAt(s, mid, b) && DroppedAt(mid, now, d, b);
    }
  }

  /** After the flush, the last block was rewritten and flushed too. */
  ghost predicate Rewritten(s: State, last: nat, tailBno: nat, now: P.Refs)
    requires s.Ok()
  {
    && (forall b: nat :: b != tailBno ==> SettledAt(s, [last], now, b))
    && P.At(now.recs, tailBno) == P.Present(P.New, 1)
    && P.TimesFreed(now.freed, tailBno) == P.TimesFreed(s.refs.freed, tailBno) + s.FlushFrees(tailBno)
  }

  /** What a write does to the references: nothing if the cached extent can grow, or else the
      flush that makes room for it; with the last block rewritten first, the flush of that one
      too, unless it can grow. */
  ghost predicate WroteTo(s: State, view: seq<nat>, zeroes: bool, grows: bool, dsblock: nat, bno: nat, tailBno: nat,
                          now: P.Refs)
    requires s.Ok()
  {
    if !zeroes && grows then now == s.refs
    else if !zeroes || (dsblock == |view| && bno == tailBno + 1) then FlushedTo(s, now)
    else |view| > 0 && Rewritten(s, view[|view| - 1], tailBno, now)
  }

  lemma FlushedAgain(s: State, mid: State, now: P.Refs)
    requires s.Ok() && mid.Ok() && FlushedTo(s, mid.refs) && FlushedTo(mid, now) && !mid.dirty
    ensures FlushedTo(s, now)
  {
    hide P.At, P.TimesFreed, P.Sorted, State.Ok;
    forall b: nat
      ensures FlushedAt(s, now, b)
    {
      assert FlushedAt(s, mid.refs, b) && FlushedAt(mid, now, b);
      assert mid.Pushed() == [] && Times([], b) == 0;
    }
  }

  lemma TailFlushed(s: State, mid: State, last: nat, now: P.Refs)
    requires s.Ok() && mid.Ok() && FlushedTo(s, mid.refs) && FlushedTo(mid, now)
    requires mid.dirty && mid.clean == 0 && mid.cache.len == 1 && mid.Pushed() == [last]
    requires mid.cache.phys != last && mid.cache.phys > 0 && P.At(mid.refs.recs, mid.cache.phys) == P.Absent
    ensures Rewritten(s, last, mid.cache.phys, now)
  {
    hide P.At, P.TimesFreed, P.Sorted, State.Pushed, State.Ok, P.Puts;
    var t := mid.cache.phys;
    assert FlushedAt(s, mid.refs, t) && FlushedAt(mid, now, t);
    forall b: nat | b != mid.cache.phys
      ensures SettledAt(s, [last], now, b)
    {
      assert FlushedAt(s, mid.refs, b) && FlushedAt(mid, now, b);
    }
  }

  lemma NothingToFlush(s: State)
    requires s.Ok() && !s.dirty
    ensures FlushedTo(s, s.refs)
  {
  }

  class Dstream {
    const bs: nat
    const tree: P.ExtentRefTree
    var numSnapshots: nat
    var size: nat       // ds_size
    var sparse: nat     // ds_sparse_bytes, in blocks
    var exts: seq<Ext>  // the file extent records for this stream
    var cache: Ext      // ds_cached_ext
    var dirty: bool     // ds_ext_dirty
    /** How many blocks of a dirty cache the catalog already has. */
    ghost var clean: nat

    /** An empty stream. */
    constructor (bs: nat, tree: P.ExtentRefTree, numSnapshots: nat)
      requires bs > 0 && tree.Valid()
      ensures this.bs == bs && this.tree == tree && this.numSnapshots == numSnapshots
      ensures size == 0 && !dirty && cache.len == 0 && exts == [] && sparse == 0
    {
      this.bs, this.tree, this.numSnapshots := bs, tree, numSnapshots;
      size, sparse, exts, cache, dirty, clean := 0, 0, [], Ext(0, 0, 0), false, 0;
    }

    function Blks(size: nat): nat
      requires bs > 0
    {
      SizeToBlocks(size, bs)
    }

    ghost function St(): State
      reads this, tree
    {
      State(bs, size, numSnapshots, exts, cache, dirty, clean, sparse, tree.St())
    }

    ghost predicate Catalog()
      reads this, tree
    {
      && tree.Valid() && Contiguous(exts) && sparse == Zeros(Flat(exts))
    }

    /** Puts references to the blocks of an extent, or forgets about its hole. */
    method PutBlocks(e: Ext) returns (status: P.Status)
      requires tree.Valid() && Zeros(Blocks(e)) <= sparse
      modifies this`sparse, tree
      ensures tree.Valid() && status == P.Ok
      ensures PutOf(old(tree.St()), old(sparse), tree.St(), sparse, Blocks(e))
    {
      BlocksCount(e, 1);
      if e.IsHole() {
        sparse := sparse - e.len;
        status := P.Ok;
        HoleDropped(tree.St(), e);
      } else {
        status := tree.AdjustRange(e.phys, e.len, -1);
        RangeDropped(old(tree.St()), tree.St(), e);
      }
    }

    /** apfs_shrink_extent_tail() */
    method ShrinkExtentTail(i: nat, end: nat) returns (status: P.Status)
      requires tree.Valid() && i < |exts| && exts[i].addr < end <= exts[i].End()
      requires Zeros(Blocks(Rest(exts[i], end - exts[i].addr))) <= sparse
      modifies this`exts, this`sparse, tree
      ensures tree.Valid() && status == P.Ok
      ensures exts == old(exts)[i := old(exts)[i].(len := end - old(exts)[i].addr)]
      ensures PutOf(old(tree.St()), old(sparse), tree.St(), sparse, Blocks(Rest(old(exts)[i], end - old(exts)[i].addr)))
    {
      var extent := exts[i];
      var newLen := end - extent.addr;
      status := PutBlocks(Rest(extent, newLen));
      exts := exts[i := extent.(len := newLen)];
    }

    /** apfs_update_tail_extent() */
    method UpdateTailExtent(ext: Ext) returns (status: P.Status)
      requires Catalog() && ext.len > 0 && !ext.IsHole()
      requires LastAddr(exts) <= ext.addr <= |Flat(exts)|
      modifies this`exts, this`sparse, tree
      ensures Catalog() && status == P.Ok && ext in exts
      ensures Flat(exts) == Flat(old(exts))[..ext.addr] + Blocks(ext)
      ensures Dropped(old(tree.St()), tree.St(), Lost(old(exts), ext))
      ensures Kept(old(exts), ext) > 0 ==> tree.St() == old(tree.St())
    {
      status := P.Ok;
      FlatNewTail(exts, ext);
      NewTailContiguous(exts, ext);
      LostBlocks(exts, ext);
      LostZeros(exts, ext);
      NothingDropped(tree.St());
      if exts == [] {
        exts := [ext];
      } else {
        status := MeetTail(ext);
      }
    }

    /** The part of apfs_update_tail_extent() for a stream with some extent. */
    method MeetTail(ext: Ext) returns (status: P.Status)
      requires tree.Valid() && exts != [] && LastAddr(exts) <= ext.addr <= exts[|exts| - 1].End()
      requires !ext.IsHole() && exts[|exts| - 1].len > 0
      requires Kept(exts, ext) == 0 ==>
        Zeros(Blocks(Rest(exts[|exts| - 1], ext.addr - exts[|exts| - 1].addr))) <= sparse
      modifies this`exts, this`sparse, tree
      ensures tree.Valid() && status == P.Ok
      ensures exts == NewTail(old(exts), ext)
      ensures ext.addr - old(exts)[|old(exts)| - 1].addr >= 0
      ensures var lost := if Kept(old(exts), ext) > 0 then []
        else Blocks(Rest(old(exts)[|old(exts)| - 1], ext.addr - old(exts)[|old(exts)| - 1].addr));
              Dropped(old(tree.St()), tree.St(), lost) && sparse == old(sparse) - Zeros(lost)
      ensures Kept(old(exts), ext) > 0 ==> tree.St() == old(tree.St())
    {
      status := P.Ok;
      var n := |exts|;
      var tail := exts[n - 1];
      NothingDropped(tree.St());
      if tail.addr > ext.addr {
        // "Extent is not tail"
        status := P.Corrupted;
      } else if tail.addr == ext.addr {
        assert Rest(tail, 0) == tail;
        exts := exts[n - 1 := ext];
        if tail.IsHole() || tail.phys != ext.phys {
          status := PutBlocks(tail);
        }
      } else {
        if ext.addr < tail.End() {
          status := ShrinkExtentTail(n - 1, ext.addr);
        }
        exts := exts + [ext];
      }
    }

    /** apfs_shrink_extent_head() */
    method ShrinkExtentHead(i: nat, start: nat) returns (status: P.Status)
      requires tree.Valid() && i < |exts| && exts[i].addr < start < exts[i].End()
      requires Zeros(Blocks(exts[i].(len := start - exts[i].addr))) <= sparse
      modifies this`exts, this`sparse, tree
      ensures tree.Valid() && status == P.Ok
      ensures exts == old(exts)[i := Rest(old(exts)[i], start - old(exts)[i].addr)]
      ensures PutOf(old(tree.St()), old(sparse), tree.St(), sparse,
        Blocks(old(exts)[i].(len := start - old(exts)[i].addr)))
    {
      var extent := exts[i];
      var headLen := start - extent.addr;
      status := PutBlocks(extent.(len := headLen));
      exts := exts[i := Rest(extent, headLen)];
    }

    /** apfs_split_extent() */
    method SplitExtent(i: nat, div: nat)
      requires i < |exts| && exts[i].addr < div < exts[i].End()
      modifies this`exts
      ensures exts == old(exts)[..i] + [old(exts)[i].(len := div - old(exts)[i].addr),
        Rest(old(exts)[i], div - old(exts)[i].addr)] + old(exts)[i + 1..]
    {
      var extent := exts[i];
      var len1 := div - extent.addr;
      exts := exts[..i] + [extent.(len := len1), Rest(extent, len1)] + exts[i + 1..];
    }

    /** What holds before each run of the search in apfs_update_mid_extent(): the
        overwritten block's reference is put when its record shrinks. */
    ghost predicate MidState(s: seq<Ext>, k: nat, ext: Ext, secondRun: bool, was: P.Refs, holes: nat)
      reads this, tree
    {
      && tree.Valid() && k < |s| && Overwriting(s, k, ext, secondRun, exts)
      && var lost := [Blocks(s[k])[ext.addr - s[k].addr]];
         if secondRun && s[k].addr == ext.addr then PutOf(was, holes, tree.St(), sparse, lost)
         else tree.St() == was && sparse == holes && Zeros(lost) <= holes
    }

    /** The block is cut off the head of its record. */
    method CutHead(i: nat, ext: Ext, ghost s: seq<Ext>, ghost was: P.Refs, ghost holes: nat)
      returns (status: P.Status)
      requires MidState(s, i, ext, false, was, holes) && s[i].addr == ext.addr && s[i].len > 1
      modifies this`exts, this`sparse, tree
      ensures MidState(s, i, ext, true, was, holes) && status == P.Ok
    {
      hide Dropped, P.Sorted, P.At;
      assert Blocks(s[i].(len := 1)) == [Blocks(s[i])[ext.addr - s[i].addr]];
      status := ShrinkExtentHead(i, ext.End());
    }

    /** The record is split after the block. */
    method CutInTwo(i: nat, ext: Ext, ghost s: seq<Ext>, ghost was: P.Refs, ghost holes: nat)
      requires MidState(s, i, ext, false, was, holes) && s[i].addr < ext.addr && ext.End() < s[i].End()
      modifies this`exts
      ensures MidState(s, i, ext, true, was, holes)
    {
      hide Dropped, P.Sorted, P.At;
      SplitExtent(i, ext.End());
    }

    /** One run of that search, from the record found. */
    method MidRun(i: int, ext: Ext, secondRun: bool, ghost s: seq<Ext>, ghost k: nat, ghost was: P.Refs,
                  ghost holes: nat)
      returns (status: P.Status, again: bool)
      requires MidState(s, k, ext, secondRun, was, holes)
      requires i == if secondRun && s[k].addr == ext.addr then k - 1 else k
      requires 0 <= i < k ==> s[i].End() == s[k].addr
      requires Blocks(s[k])[ext.addr - s[k].addr] != ext.phys
      modifies this`exts, this`sparse, tree
      ensures tree.Valid() && status == P.Ok
      ensures again ==> !secondRun && MidState(s, k, ext, true, was, holes)
      ensures !again ==> exts == Overwritten(s, k, ext)
                         && PutOf(was, holes, tree.St(), sparse, [Blocks(s[k])[ext.addr - s[k].addr]])
    {
      hide Dropped, P.Sorted, P.At, Overwritten, Inserted, Pieces;
      status, again := P.Ok, false;
      ghost var lost := [Blocks(s[k])[ext.addr - s[k].addr]];
      if i == -1 {
        // The new extent goes in a hole just made, at the beginning of the file
        if !secondRun {
          status := P.Corrupted;
        } else {
          HeadOverwritten(s, k, ext, exts);
          exts := Inserted(exts, 0, ext);
        }
        return;
      }
      var prev := exts[i];
      if prev.End() == ext.addr && secondRun {
        HeadOverwritten(s, k, ext, exts);
        exts := Inserted(exts, i + 1, ext);
      } else if prev.addr == ext.addr && prev.len == ext.len {
        WholeOverwritten(s, k, ext);
        assert Blocks(prev) == lost;
        exts := exts[i := ext];
        if prev.IsHole() || prev.phys != ext.phys {
          status := PutBlocks(prev);
        }
      } else if prev.addr == ext.addr {
        if secondRun {
          // "Recursion shrinking extent head"
          status := P.Corrupted;
        } else {
          status := CutHead(i, ext, s, was, holes);
          again := true;
        }
      } else if prev.End() == ext.End() {
        assert Blocks(Rest(prev, ext.addr - prev.addr)) == lost;
        if secondRun { MiddleOverwritten(s, k, ext, exts); } else { TailOverwritten(s, k, ext); }
        status := ShrinkExtentTail(i, ext.addr);
        exts := Inserted(exts, i + 1, ext);
      } else if prev.addr < ext.addr && prev.End() > ext.End() {
        if secondRun {
          // "Recursion when splitting extents"
          status := P.Corrupted;
        } else {
          CutInTwo(i, ext, s, was, holes);
          again := true;
        }
      } else {
        // "Strange extents"
        status := P.Corrupted;
      }
    }

    /** The search loop of apfs_update_mid_extent(), which runs at most twice. */
    method MidRuns(ext: Ext, ghost k: nat) returns (status: P.Status)
      requires Contiguous(exts) && MidState(exts, k, ext, false, tree.St(), sparse)
      requires Blocks(exts[k])[ext.addr - exts[k].addr] != ext.phys
      modifies this`exts, this`sparse, tree
      ensures tree.Valid() && status == P.Ok
      ensures exts == Overwritten(old(exts), k, ext)
      ensures PutOf(old(tree.St()), old(sparse), tree.St(), sparse,
        [Blocks(old(exts)[k])[ext.addr - old(exts)[k].addr]])
    {
      hide Dropped, P.Sorted;
      ghost var s := exts;
      var secondRun := false;
      status := P.Ok;
      while true
        invariant status == P.Ok && MidState(s, k, ext, secondRun, old(tree.St()), old(sparse))
        decreases !secondRun
      {
        OverwritingFloor(s, k, ext, secondRun, exts);
        var i := FloorExt(exts, ext.addr);
        var again;
        status, again := MidRun(i, ext, secondRun, s, k, old(tree.St()), old(sparse));
        if status != P.Ok || !again { break; }
        secondRun := true;
      }
    }

    /** apfs_update_mid_extent() */
    method UpdateMidExtent(ext: Ext) returns (status: P.Status)
      requires Catalog() && ext.len == 1 && !ext.IsHole()
      requires ext.addr < |Flat(exts)| && Flat(exts)[ext.addr] != ext.phys
      modifies this`exts, this`sparse, tree
      ensures Catalog() && status == P.Ok && ext in exts
      ensures Flat(exts) == Flat(old(exts))[ext.addr := ext.phys]
      ensures Dropped(old(tree.St()), tree.St(), [Flat(old(exts))[ext.addr]])
    {
      hide Dropped, P.Sorted, Flat, FloorExt, Overwritten, P.At;
      ghost var k := FloorExt(exts, ext.addr);
      FloorCovers(exts, ext.addr);
      MidResult(exts, k, ext);
      status := MidRuns(ext, k);
    }

    predicate Fresh(p: nat)
      reads this, tree
    {
      p > 0 && P.At(tree.recs, p) == P.Absent && p !in Flat(exts) && (dirty ==> p !in Blocks(cache))
    }

    /** The cached extent is a whole record of the catalog, or dirty. A dirty one is
        the tail of the stream, or a single block that was overwritten. */
    ghost predicate Valid()
      reads this, tree
    {
      && bs > 0 && Catalog()
      && if !dirty then |Flat(exts)| == Blks(size) && (cache.len > 0 ==> cache in exts)
         else
           && !cache.IsHole() && clean < cache.len
           && (forall p :: cache.phys + clean <= p < cache.phys + cache.len ==>
             P.At(tree.recs, p) == P.Absent && p !in Flat(exts))
           && cache.addr <= |Flat(exts)|
           && (clean > 0 ==> exts != [] && exts[|exts| - 1] == Ext(cache.addr, clean, cache.phys))
           && if cache.End() >= Blks(size)
              then cache.End() == Blks(size) && LastAddr(exts) <= cache.addr && |Flat(exts)| <= cache.End()
              else cache.len == 1 && clean == 0 && |Flat(exts)| == Blks(size)
    }

    /** The plain block map that the cached extent and the catalog stand for. */
    ghost function View(): seq<nat>
      reads this
      requires dirty ==> cache.addr <= |Flat(exts)|
    {
      if dirty then Overlay(Flat(exts), cache.addr, Blocks(cache)) else Flat(exts)
    }

    /** The tree knows about the part of a dirty extent that the catalog has. */
    ghost predicate Tracked()
      reads this, tree
    {
      dirty && clean > 0 ==> P.At(tree.recs, cache.phys + clean - 1).Present?
    }

    /** apfs_update_extent() */
    method UpdateExtent(ext: Ext) returns (status: P.Status)
      requires Valid() && dirty && ext == cache
      modifies this`exts, this`sparse, tree
      ensures Catalog() && status == P.Ok && ext in exts
      ensures Flat(exts) == old(View())
      ensures Dropped(old(tree.St()), tree.St(), old(Pushed()))
      ensures clean > 0 ==> tree.St() == old(tree.St())
    {
      EndsByBlocks(size, ext.End(), bs);
      ghost var f := Flat(exts);
      if ext.End() >= Blks(size) {
        OverlayTail(f, ext.addr, Blocks(ext));
      } else {
        OverlayOne(f, ext.addr, Blocks(ext));
        assert ext.phys !in f;
      }
      if EndsBy(size, ext.End(), bs) {
        status := UpdateTailExtent(ext);
      } else if ext.len > 1 {
        status := P.Corrupted;
      } else {
        status := UpdateMidExtent(ext);
      }
    }

    ghost function Pushed(): seq<nat>
      reads this, tree
      requires Valid() && dirty
    {
      if cache.End() >= Blks(size) then Lost(exts, cache) else [Flat(exts)[cache.addr]]
    }

    lemma PushedCounts()
      requires Valid() && dirty
      ensures clean > 0 ==> Pushed() == []
      ensures forall p: nat :: p in Pushed() ==> p in Flat(exts)
      ensures multiset(View()) + multiset(Pushed()) == multiset(Flat(exts)) + multiset(Blocks(Rest(cache, clean)))
    {
      if cache.End() >= Blks(size) {
        OverlayTail(Flat(exts), cache.addr, Blocks(cache));
        assert clean == 0 ==> cache.phys !in Flat(exts);
        TailCounts(exts, cache, clean);
      } else {
        OverlayOne(Flat(exts), cache.addr, Blocks(cache));
        OneCounts(Flat(exts), cache);
      }
    }

    /** UpdateExtent() leaves the records of the dirty extent itself alone. */
    method UpdateDirtyExtent() returns (status: P.Status)
      requires Valid() && dirty
      modifies this`exts, this`sparse, tree
      ensures Catalog() && status == P.Ok && cache in exts
      ensures Flat(exts) == old(View())
      ensures Dropped(old(tree.St()), tree.St(), old(Pushed()))
      ensures Tracked() == old(Tracked()) && (clean > 0 ==> tree.St() == old(tree.St()))
      ensures forall p :: cache.phys + clean <= p < cache.phys + cache.len ==> P.At(tree.recs, p) == P.Absent
    {
      hide P.At, Flat;
      PushedCounts();
      ghost var was, d := tree.St(), Pushed();
      status := UpdateExtent(cache);
      if clean > 0 { DroppedElsewhere(was, tree.St(), d, cache.phys + clean - 1); }
      forall p | cache.phys + clean <= p < cache.phys + cache.len ensures P.At(tree.recs, p) == P.Absent {
        DroppedElsewhere(was, tree.St(), d, p);
      }
    }

    /** The two updates of apfs_flush_extent_cache(). */
    method WriteBack() returns (status: P.Status)
      requires Valid() && dirty
      modifies this`exts, this`sparse, tree
      ensures Catalog() && status == P.Ok && cache in exts
      ensures Flat(exts) == old(View())
      ensures Conserved(old(tree.recs), old(Flat(exts)), tree.recs, Flat(exts)) <==> old(Tracked())
      ensures StillAbsent(old(tree.recs), tree.recs, old(Flat(exts)) + Blocks(cache))
      ensures FlushedTo(old(St()), tree.St())
    {
      hide P.At, P.Sorted, P.Extended, P.WithExtent, Flat, Contiguous, Dropped, Conserved, StillAbsent, FlushedTo;
      PushedCounts();
      ghost var was, f0, d := tree.St(), Flat(exts), Pushed();
      status := UpdateDirtyExtent();
      if status == P.Ok {
        ghost var mid, from := tree.St(), 0;
        status, from := tree.InsertPhysExtent(cache.phys, cache.len, clean);
        FlushConserves(was, f0, mid, d, tree.recs, Flat(exts), Rest(cache, clean), from);
        AbsentThroughFlush(was, mid, d, tree.recs, f0, cache, from);
        FlushedIs(old(St()), mid, tree.St());
      }
    }

    /** apfs_flush_extent_cache(): the catalog catches up with the block map, and
        the tree with the catalog, as long as the cached extent was tracked. */
    method FlushExtentCache() returns (status: P.Status)
      requires Valid()
      modifies this`exts, this`sparse, this`dirty, tree
      ensures Valid() && status == P.Ok && !dirty
      ensures Flat(exts) == old(View())
      ensures Conserved(old(tree.recs), old(Flat(exts)), tree.recs, Flat(exts)) <==> old(Tracked())
      ensures StillAbsent(old(tree.recs), tree.recs, old(Flat(exts)) + if old(dirty) then Blocks(cache) else [])
      ensures FlushedTo(old(St()), tree.St())
    {
      hide P.At, P.Sorted, Flat, FlushedTo;
      if !dirty {
        NothingToFlush(St());
        return P.Ok;
      }
      status := WriteBack();
      dirty := false;
      EndsByBlocks(size, cache.End(), bs);
    }

    /** apfs_create_hole() */
    method CreateHole(start: nat, end: nat)
      requires Catalog() && start <= end && start == |Flat(exts)|
      modifies this`exts, this`sparse
      ensures Catalog() && Flat(exts) == Flat(old(exts)) + Holes(end - start)
      ensures start < end ==> LastAddr(exts) == start
      ensures start == end ==> exts == old(exts)
    {
      hide Flat, P.Sorted, P.At, FloorExt, Inserted;
      if start == end {
        return;
      }
      HoleAppended(exts, end);
      AppendPosition(exts, Ext(start, end - start, 0));
      var i := FloorExt(exts, start);
      exts := Inserted(exts, i + 1, Ext(start, end - start, 0));
      sparse := sparse + end - start;
    }

    predicate Grows(dsblock: nat, bno: nat)
      requires tree.Valid()
      reads this, tree
    {
      CanGrow(tree.recs, numSnapshots, dirty, cache, EndsBy(size, cache.End(), bs), dsblock, bno)
    }

    lemma BeforeGrowth(dsblock: nat, bno: nat)
      requires Valid() && Grows(dsblock, bno)
      ensures cache.addr <= |Flat(exts)| <= cache.End() == Blks(size) && LastAddr(exts) <= cache.addr
      ensures View() == Overlay(Flat(exts), cache.addr, Blocks(cache)) && |View()| == dsblock
      ensures !dirty ==> exts != [] && exts[|exts| - 1] == cache
    {
      hide Valid, Flat, P.RangeInSnap, Blocks, SizeToBlocks, EndsBy, Overlay;
      assert bs > 0 by { Positive(); }
      EndsByBlocks(size, cache.End(), bs);
      if dirty { DirtyTail(); } else { CleanTail(); }
    }

    lemma Positive()
      requires Valid()
      ensures bs > 0
    {
    }

    lemma DirtyTail()
      requires Valid() && dirty && cache.End() >= Blks(size)
      ensures cache.addr <= |Flat(exts)| <= cache.End() == Blks(size) && LastAddr(exts) <= cache.addr
      ensures |View()| == cache.End()
    {
      hide Flat, Contiguous, P.At, P.Sorted, SizeToBlocks;
    }

    lemma CleanTail()
      requires Valid() && !dirty && cache.len > 0 && cache.End() >= Blks(size)
      ensures cache.addr <= |Flat(exts)| == cache.End() == Blks(size) && LastAddr(exts) <= cache.addr
      ensures View() == Overlay(Flat(exts), cache.addr, Blocks(cache)) && |View()| == cache.End()
      ensures exts != [] && exts[|exts| - 1] == cache
    {
      hide Flat, Contiguous, P.At, P.Sorted, SizeToBlocks, Overlay, Blocks;
      LastRecord(exts, cache);
      CleanView(Flat(exts), cache);
    }

    /** Growth, and the size update that follows it. */
    method GrowCache(dsblock: nat, bno: nat, newSize: nat)
      requires Valid() && Fresh(bno) && Grows(dsblock, bno) && Blks(newSize) == dsblock + 1
      modifies this`cache, this`dirty, this`size, this`clean
      ensures size == newSize && dirty && cache.addr <= |Flat(exts)|
      ensures !old(cache.IsHole()) <==> View() == Written(old(View()), dsblock, bno)
      ensures !old(cache.IsHole()) ==> Valid()
      ensures !old(cache.IsHole()) ==>
        (Tracked() <==> if old(dirty) then old(Tracked()) else P.At(tree.recs, bno - 1).Present?)
    {
      hide Flat, P.Sorted, P.At, Contiguous, Overlay, SizeToBlocks;
      BeforeGrowth(dsblock, bno);
      GrownView(Flat(exts), cache, View());
      if !dirty { clean := cache.len; }
      cache := cache.(len := cache.len + 1);
      dirty := true;
      size := newSize;
    }

    /** The blocks that the stream may have a reference to. */
    ghost function Used(): seq<nat>
      reads this
    {
      Flat(exts) + if dirty then Blocks(cache) else []
    }

    lemma ViewUsed(p: nat)
      requires Valid() && p !in Used()
      ensures p !in View()
    {
      if dirty && p in View() { OverlayMember(Flat(exts), cache.addr, Blocks(cache), p); }
    }

    /** The slow path of apfs_dstream_get_new_block(), up to the new dirty cache. */
    method MakeRoom(dsblock: nat) returns (status: P.Status)
      requires Valid()
      modifies this`exts, this`sparse, this`dirty, tree
      ensures Catalog() && status == P.Ok && !dirty
      ensures Flat(exts) == old(View()) + Holes(if dsblock > |old(View())| then dsblock - |old(View())| else 0)
      ensures |old(View())| == Blks(size)
      ensures Conserved(old(tree.recs), old(Flat(exts)), tree.recs, Flat(exts)) <==> old(Tracked())
      ensures StillAbsent(old(tree.recs), tree.recs, old(Used()))
      ensures FlushedTo(old(St()), tree.St())
    {
      hide Flat, P.At, P.Sorted, Contiguous, Conserved, StillAbsent, FlushedTo;
      status := FlushExtentCache();
      if status != P.Ok { return; }
      var blks := Blks(size);
      HolesConserve(old(tree.recs), old(Flat(exts)), tree.recs, Flat(exts),
        if dsblock > blks then dsblock - blks else 0);
      if blks < dsblock {
        CreateHole(blks, dsblock);
      }
      assert Flat(exts) + Holes(0) == Flat(exts);
    }

    /** The slow path, and the size update that follows it. */
    method ReplaceCache(dsblock: nat, bno: nat, newSize: nat) returns (status: P.Status)
      requires Valid() && Fresh(bno) && newSize >= size
      requires Blks(newSize) == if dsblock < Blks(size) then Blks(size) else dsblock + 1
      modifies this, tree
      ensures Valid() && status == P.Ok && size == newSize && numSnapshots == old(numSnapshots)
      ensures dirty && clean == 0 && cache == Ext(dsblock, 1, bno) && |Flat(exts)| >= |old(View())|
      ensures Flat(exts)[..|old(View())|] == old(View()) && (dsblock < |old(View())| ==> Flat(exts) == old(View()))
      ensures FlushedTo(old(St()), tree.St())
      ensures View() == Written(old(View()), dsblock, bno)
      ensures Conserved(old(tree.recs), old(Flat(exts)), tree.recs, Flat(exts)) <==> old(Tracked())
      ensures forall p: nat :: old(Fresh(p)) && p != bno ==> Fresh(p)
    {
      hide Flat, Contiguous, Overlay, Written, Holes, LastAddr, P.At, P.Sorted, Conserved, SizeToBlocks, FlushedTo;
      ghost var view := View();
      forall p: nat | p !in Used() ensures p !in view { ViewUsed(p); }
      status := MakeRoom(dsblock);
      if status != P.Ok { return; }
      PaddedView(view, dsblock, bno, Flat(exts));
      LastBelow(exts);
      cache := Ext(dsblock, 1, bno);
      dirty, clean := true, 0;
      size := newSize;
      forall p: nat | p > 0 && p !in view ensures p !in Flat(exts) { NotPadded(view, Flat(exts), p); }
    }

    /** Growing a cached hole by a data block turns the block into a hole too. */
    predicate LosesBlock(dsblock: nat, bno: nat)
      requires tree.Valid()
      reads this, tree
    {
      Grows(dsblock, bno) && cache.IsHole()
    }

    /** apfs_dstream_get_new_block() for an allocated block, and the size update of
        the write that asked for it. */
    method NewBlock(dsblock: nat, bno: nat, newSize: nat) returns (status: P.Status)
      requires Valid() && Fresh(bno) && newSize >= size
      requires Blks(newSize) == if dsblock < Blks(size) then Blks(size) else dsblock + 1
      modifies this, tree
      ensures status == P.Ok && size == newSize && numSnapshots == old(numSnapshots) && dirty &&
        cache.addr <= |Flat(exts)|
      ensures View() == Written(old(View()), dsblock, bno) <==> !old(LosesBlock(dsblock, bno))
      ensures !old(LosesBlock(dsblock, bno)) ==> Valid()
      ensures Conserved(old(tree.recs), old(Flat(exts)), tree.recs, Flat(exts)) <==>
        old(Grows(dsblock, bno) || Tracked())
      ensures !old(LosesBlock(dsblock, bno)) ==>
                (Tracked() <==>
                  old(!Grows(dsblock, bno) || if dirty then Tracked() else P.At(tree.recs, bno - 1).Present?))
      ensures !old(Grows(dsblock, bno)) ==>
                && clean == 0 && cache == Ext(dsblock, 1, bno) && |Flat(exts)| >= |old(View())|
                && (dsblock < |old(View())| ==> Flat(exts) == old(View()))
                && forall p: nat :: old(Fresh(p)) && p != bno ==> Fresh(p)
      ensures if old(Grows(dsblock, bno)) then tree.St() == old(tree.St()) else FlushedTo(old(St()), tree.St())
    {
      hide Flat, Contiguous, Overlay, Written, P.At, P.Sorted, LastAddr, FlushedTo;
      var inSnap := !dirty && P.RangeInSnap(tree.recs, numSnapshots, cache.phys, cache.len);
      var isTail := cache.len > 0 && EndsBy(size, cache.End(), bs);
      EndsByBlocks(size, cache.End(), bs);
      if !inSnap && isTail && dsblock == cache.End() && bno == cache.phys + cache.len {
        GrowCache(dsblock, bno, newSize);
        status := P.Ok;
      } else {
        status := ReplaceCache(dsblock, bno, newSize);
      }
    }

    /** apfs_extent_read(): the extent that covers a block, from the cache or the
        catalog. Only the given block's mapping is promised: others in the same
        record may be stale while the cache is dirty. */
    method ExtentRead(dsblock: nat) returns (status: P.Status, ext: Ext)
      requires Valid() && dsblock < Blks(size)
      modifies this`cache
      ensures status == P.Ok && Valid() && View() == old(View()) && |View()| == Blks(size)
      ensures ext.addr <= dsblock < ext.End() && Blocks(ext)[dsblock - ext.addr] == View()[dsblock]
      ensures !dirty ==> ext in exts
    {
      hide Contiguous, P.At, P.Sorted, Sorted, Flat;
      status, ext := P.Ok, cache;
      if cache.addr <= dsblock < cache.End() {
        CacheHit(dsblock);
        return;
      }
      CacheMiss(dsblock);
      FloorCovers(exts, dsblock);
      var i := FloorExt(exts, dsblock);
      if i == -1 {
        status := P.Corrupted;
        return;
      }
      ext := exts[i];
      if dsblock < ext.addr || dsblock >= ext.End() {
        status := P.Corrupted;
      } else if !dirty {
        cache := ext;
      }
    }

    lemma CacheHit(dsblock: nat)
      requires Valid() && cache.addr <= dsblock < cache.End() && dsblock < Blks(size)
      ensures |View()| == Blks(size) && View()[dsblock] == Blocks(cache)[dsblock - cache.addr]
    {
      hide Flat, P.At, P.Sorted;
      if !dirty {
        var i :| 0 <= i < |exts| && exts[i] == cache;
        FlatPiece(exts, i);
        assert Flat(exts)[dsblock] == Flat(exts)[cache.addr..cache.End()][dsblock - cache.addr];
      }
    }

    lemma CacheMiss(dsblock: nat)
      requires Valid() && !(cache.addr <= dsblock < cache.End()) && dsblock < Blks(size)
      ensures |View()| == Blks(size) && dsblock < |Flat(exts)| && View()[dsblock] == Flat(exts)[dsblock] && Sorted(exts)
    {
      hide Flat, P.At, P.Sorted, SizeToBlocks;
    }

    /** apfs_logic_to_phys_bno() */
    method LogicToPhysBno(dsblock: nat) returns (status: P.Status, bno: nat)
      requires Valid() && dsblock < Blks(size)
      modifies this`cache
      ensures status == P.Ok && Valid() && View() == old(View()) && |View()| == Blks(size)
      ensures bno == View()[dsblock]
    {
      hide Contiguous, P.At, P.Sorted, Flat, Overlay;
      bno := 0;
      var ext;
      status, ext := ExtentRead(dsblock);
      if status != P.Ok || ext.IsHole() { return; }
      bno := ext.phys + (dsblock - ext.addr);
    }

    /** The catalog lost its blocks from some point on, and the tree their references. */
    ghost predicate CutTo(s: seq<Ext>, was: P.Refs)
      reads this, tree
    {
      && Catalog() && |Flat(exts)| <= |Flat(s)| && Flat(exts) == Flat(s)[..|Flat(exts)|]
      && Dropped(was, tree.St(), Flat(s)[|Flat(exts)|..])
    }

    method RemoveLastExtent() returns (status: P.Status)
      requires Catalog() && exts != []
      modifies this`exts, this`sparse, tree
      ensures status == P.Ok && CutTo(old(exts), old(tree.St()))
      ensures |Flat(exts)| == LastAddr(old(exts)) && |exts| < |old(exts)|
    {
      hide Flat, Contiguous, Dropped, P.At, P.Sorted;
      TailRemoved(exts);
      var tail := exts[|exts| - 1];
      exts := exts[..|exts| - 1];
      status := PutBlocks(tail);
    }

    method CutLastExtent(end: nat) returns (status: P.Status)
      requires Catalog() && exts != [] && LastAddr(exts) < end <= |Flat(exts)|
      modifies this`exts, this`sparse, tree
      ensures status == P.Ok && CutTo(old(exts), old(tree.St())) && |Flat(exts)| == end && |exts| == |old(exts)|
    {
      hide Flat, Contiguous, Dropped, P.At, P.Sorted;
      TailCut(exts, end);
      status := ShrinkExtentTail(|exts| - 1, end);
    }

    /** apfs_shrink_dstream_last_extent() */
    method ShrinkLastExtent(newSize: nat) returns (r: Shrunk)
      requires Catalog() && bs > 0 && Blks(newSize) <= |Flat(exts)|
      modifies this`exts, this`sparse, tree
      ensures r != Missing && CutTo(old(exts), old(tree.St())) && Blks(newSize) <= |Flat(exts)|
      ensures if r == Done then |Flat(exts)| == Blks(newSize) && |exts| <= |old(exts)| else |exts| < |old(exts)|
    {
      hide Flat, Contiguous, Dropped, P.At, P.Sorted, SizeToBlocks, EndsBy;
      NothingDropped(tree.St());
      FlatAll(exts);
      SomeBlocks(newSize, bs);
      if exts == [] {
        r := if newSize > 0 then Missing else Done;
        return;
      }
      TailRemoved(exts);
      var tail := exts[|exts| - 1];
      EndsByBlocks(newSize, tail.End(), bs);
      EndsByBlocks(newSize, tail.addr, bs);
      var status := P.Ok;
      if !EndsBy(newSize, tail.End(), bs) {
        r := Missing;
      } else if tail.End() * bs == newSize {
        ExactEnd(newSize, tail.End(), bs);
        r := Done;
      } else if EndsBy(newSize, tail.addr, bs) {
        // This whole extent needs to go
        status := RemoveLastExtent();
        if tail.addr * bs == newSize { ExactEnd(newSize, tail.addr, bs); }
        r := if tail.addr * bs == newSize then Done else Again;
      } else {
        // The file is being truncated in the middle of this extent
        status := CutLastExtent(Blks(newSize));
        r := Done;
      }
    }

    /** apfs_shrink_dstream() */
    method ShrinkDstream(newSize: nat) returns (r: Shrunk)
      requires Catalog() && bs > 0 && Blks(newSize) <= |Flat(exts)|
      modifies this`exts, this`sparse, tree
      ensures r == Done && CutTo(old(exts), old(tree.St())) && |Flat(exts)| == Blks(newSize)
    {
      hide Flat, Contiguous, Dropped, P.At, P.Sorted, SizeToBlocks;
      NothingDropped(tree.St());
      FlatAll(exts);
      ghost var f0 := Flat(exts);
      r := Again;
      while r == Again
        invariant r != Missing && CutTo(old(exts), old(tree.St())) && Blks(newSize) <= |Flat(exts)|
        invariant r == Done ==> |Flat(exts)| == Blks(newSize)
        decreases |exts|, r == Again
      {
        ghost var n, mid := |Flat(exts)|, tree.St();
        r := ShrinkLastExtent(newSize);
        DroppedTwice(old(tree.St()), mid, f0[n..], tree.St(), f0[..n][|Flat(exts)|..]);
        CutAgain(f0, n, |Flat(exts)|);
      }
    }

    /** The conditions under which apfs_zero_dstream_tail() writes to the last block. */
    predicate StaleTail()
      reads this
      requires bs > 0
    {
      size > sparse * bs && size % bs != 0
    }

    ghost predicate ZeroesTail(tailBno: nat)
      reads this
      requires bs > 0
    {
      StaleTail() && tailBno > 0
    }

    /** apfs_zero_dstream_tail(): rewrites the last block. No block is given when the
        old one already belongs to the transaction. */
    method ZeroDstreamTail(tailBno: nat) returns (status: P.Status)
      requires Valid() && (tailBno > 0 ==> Fresh(tailBno))
      modifies this, tree
      ensures status == P.Ok && Valid() && size == old(size) && numSnapshots == old(numSnapshots)
      ensures View() == Zeroed(old(View()), old(ZeroesTail(tailBno)), tailBno)
      ensures Conserved(old(tree.recs), old(Flat(exts)), tree.recs, Flat(exts)) <==>
        old(ZeroesTail(tailBno) ==> Tracked())
      ensures forall p: nat :: old(Fresh(p)) && p != tailBno ==> Fresh(p)
      ensures if old(ZeroesTail(tailBno))
              then dirty && cache == Ext(Blks(size) - 1, 1, tailBno) && |Flat(exts)| == Blks(size) && Tracked()
              else unchanged(this) && unchanged(tree)
      ensures old(ZeroesTail(tailBno)) ==>
        FlushedTo(old(St()), tree.St()) && clean == 0 && Flat(exts) == old(View()) && Blks(size) > 0
    {
      hide Flat, Contiguous, Overlay, P.At, P.Sorted, LastAddr, Written, FlushedTo;
      status := P.Ok;
      if StaleTail() && tailBno > 0 {
        NonEmpty(tailBno);
        ghost var view := View();
        status := NewBlock(Blks(size) - 1, tailBno, size);
        WrittenInside(view, |view| - 1, tailBno);
      }
    }

    lemma NonEmpty(bno: nat)
      requires Valid()
      ensures |View()| == Blks(size)
      ensures StaleTail() ==> Blks(size) > 0 && !Grows(Blks(size) - 1, bno)
    {
      EndsByBlocks(size, cache.End(), bs);
      SomeBlocks(size, bs);
    }

    /** A write to one block: apfs_dstream_get_new_block() with the rewrite of a stale
        tail that it starts with, and the size update of __apfs_write_end(). */
    method Write(dsblock: nat, bno: nat, newSize: nat, tailBno: nat) returns (status: P.Status, ghost zeroes: bool)
      requires Valid() && Fresh(bno) && newSize >= size && (tailBno > 0 ==> Fresh(tailBno) && tailBno != bno)
      requires Blks(newSize) == if dsblock < Blks(size) then Blks(size) else dsblock + 1
      modifies this, tree
      ensures status == P.Ok && size == newSize && cache.addr <= |Flat(exts)|
      ensures zeroes == old(Blks(size) <= dsblock && ZeroesTail(tailBno))
      ensures View() == Written(Zeroed(old(View()), zeroes, tailBno), dsblock, bno) <==>
        zeroes || !old(LosesBlock(dsblock, bno))
      ensures zeroes || !old(LosesBlock(dsblock, bno)) ==> Valid()
      ensures Conserved(old(tree.recs), old(Flat(exts)), tree.recs, Flat(exts)) <==>
        old(Tracked()) || (!zeroes && old(Grows(dsblock, bno)))
      ensures zeroes ==> Tracked()
      ensures !zeroes && !old(LosesBlock(dsblock, bno)) ==>
                (Tracked() <==>
                  old(!Grows(dsblock, bno) || if dirty then Tracked() else P.At(tree.recs, bno - 1).Present?))
      ensures WroteTo(old(St()), old(View()), zeroes, old(Grows(dsblock, bno)), dsblock, bno, tailBno, tree.St())
    {
      hide Flat, Contiguous, Overlay, P.At, P.Sorted, LastAddr, Written, FlushedTo, Rewritten, State.Ok;
      zeroes := Blks(size) <= dsblock && ZeroesTail(tailBno);
      status := P.Ok;
      StOk();
      FreshNotUsed(tailBno);
      ghost var was, view := St(), View();
      if Blks(size) <= dsblock {
        status := ZeroDstreamTail(tailBno);
      }
      ghost var mid := St();
      if zeroes { TailPushed(view); }
      StOk();
      if status == P.Ok {
        status := NewBlock(dsblock, bno, newSize);
      }
      if zeroes && !(dsblock == |view| && bno == tailBno + 1) {
        TailFlushed(was, mid, view[|view| - 1], tree.St());
      }
    }

    lemma StOk()
      requires Valid()
      ensures St().Ok() && St().Unwritten()
    {
    }

    /** The rewritten last block pushes out the old one. */
    lemma TailPushed(view: seq<nat>)
      requires Valid() && dirty && clean == 0 && Blks(size) > 0 && cache.addr == Blks(size) - 1 && cache.len == 1
      requires Flat(exts) == view && |view| == Blks(size) && cache.phys !in view
      ensures St().Ok() && St().Pushed() == [view[|view| - 1]] && P.At(tree.recs, cache.phys) == P.Absent
      ensures forall dsblock, bno :: Grows(dsblock, bno) <==> dsblock == |view| && bno == cache.phys + 1
    {
      hide P.At, Flat, P.RangeInSnap;
      EndsByBlocks(size, cache.End(), bs);
      LostBlocks(exts, cache);
      if exts != [] { FlatLast(exts); }
      assert view[cache.addr..][0] == view[cache.addr];
      assert view[cache.addr..] == [view[|view| - 1]];
    }

    /** Whether growing the stream would rewrite its last block first, in terms of
        the block map: there is some data, and the last block is not full. */
    ghost predicate RewritesTail(view: seq<nat>, tailBno: nat)
      reads this
      requires bs > 0
    {
      size > Zeros(view) * bs && size % bs != 0 && tailBno > 0
    }

    /** apfs_truncate() and the size update of apfs_setsize(). */
    method Truncate(newSize: nat, tailBno: nat) returns (status: P.Status)
      requires Valid() && (tailBno > 0 ==> Fresh(tailBno))
      modifies this, tree
      ensures status == P.Ok && Valid() && size == newSize && |View()| == Blks(newSize)
      ensures newSize <= old(size) ==> |old(View())| >= Blks(newSize) && View() == old(View())[..Blks(newSize)]
      ensures newSize > old(size) ==>
                && Blks(newSize) >= |old(View())|
                && View() == Zeroed(old(View()), old(RewritesTail(View(), tailBno)), tailBno)
                  + Holes(Blks(newSize) - |old(View())|)
      ensures Conserved(old(tree.recs), old(Flat(exts)), tree.recs, Flat(exts)) <==> old(Tracked())
      ensures newSize <= old(size) ==> Settled(old(St()), old(View())[Blks(newSize)..], tree.St())
      ensures newSize > old(size) ==> FlushedTo(old(St()), tree.St())
    {
      hide Flat, Contiguous, Overlay, P.At, P.Sorted, LastAddr, Written, SizeToBlocks, Conserved, Dropped;
      hide FlushedTo, Settled, State.Ok;
      StOk();
      ghost var was := St();
      MoreBlocks(newSize, size, bs);
      FreshNotUsed(tailBno);
      status := FlushExtentCache();
      if status != P.Ok { return; }
      ghost var mid, f := tree.St(), Flat(exts);
      dirty, cache := false, cache.(len := 0);
      if newSize <= size {
        var r := ShrinkDstream(newSize);
        status := if r == Done then P.Ok else P.Corrupted;
        CutConserves(mid, f, tree.St(), |Flat(exts)|);
        FlushedThenDropped(was, mid, f[|Flat(exts)|..], tree.St());
        size := newSize;
      } else {
        ghost var flushed := St();
        status := GrowDstream(newSize, tailBno);
        FlushedAgain(was, flushed, tree.St());
      }
      ConservedThen(old(tree.recs), old(Flat(exts)), mid.recs, f, tree.recs, Flat(exts));
    }

    lemma FreshNotUsed(p: nat)
      requires Valid() && (p > 0 ==> Fresh(p))
      ensures p > 0 ==> p !in View() && p !in Used()
    {
      if p > 0 { ViewUsed(p); }
    }

    /** The rest of the stream up to its new size is a hole. */
    method GrowByHole(newSize: nat)
      requires Valid() && newSize > size && |Flat(exts)| == Blks(size) && Blks(newSize) >= Blks(size)
      requires if dirty then cache.addr == Blks(size) - 1 && cache.len == 1 && clean == 0 else cache.len == 0
      modifies this
      ensures Valid() && size == newSize && Flat(exts) == old(Flat(exts)) + Holes(Blks(newSize) - old(Blks(size)))
      ensures View() == old(View()) + Holes(Blks(newSize) - old(Blks(size))) && |View()| == Blks(newSize)
    {
      hide Flat, Contiguous, Overlay, P.At, P.Sorted, SizeToBlocks, Holes;
      ghost var f, n := Flat(exts), Blks(newSize) - Blks(size);
      OverlayPadded(f, if dirty then cache.addr else 0, if dirty then Blocks(cache) else [], n);
      LastBelow(exts);
      CreateHole(Blks(size), Blks(newSize));
      size := newSize;
    }

    /** The growing half of apfs_truncate(), after the flush. */
    method GrowDstream(newSize: nat, tailBno: nat) returns (status: P.Status)
      requires Valid() && !dirty && cache.len == 0 && newSize > size && (tailBno > 0 ==> Fresh(tailBno))
      modifies this, tree
      ensures status == P.Ok && Valid() && size == newSize
      ensures Blks(newSize) >= |old(Flat(exts))| && |View()| == Blks(newSize)
      ensures View() == Zeroed(old(Flat(exts)), old(ZeroesTail(tailBno)), tailBno)
        + Holes(Blks(newSize) - |old(Flat(exts))|)
      ensures Conserved(old(tree.recs), old(Flat(exts)), tree.recs, Flat(exts))
      ensures old(St()).Ok() && FlushedTo(old(St()), tree.St())
    {
      hide Flat, Contiguous, Overlay, P.At, P.Sorted, Written, SizeToBlocks, Conserved, Holes, FlushedTo, State.Ok;
      StOk();
      NothingToFlush(St());
      MoreBlocks(size, newSize, bs);
      ghost var f0 := Flat(exts);
      status := ZeroDstreamTail(tailBno);
      if status == P.Ok {
        HolesConserve(old(tree.recs), f0, tree.recs, Flat(exts), Blks(newSize) - Blks(size));
        GrowByHole(newSize);
      }
    }

    /** The references that apfs_clone_single_extent() takes. */
    method CloneSingleExtent(extent: Ext, ghost recs: seq<P.PhysExt>, ghost f: seq<nat>) returns (status: P.Status)
      requires tree.Valid() && Conserved(recs, [], tree.recs, f)
      modifies tree
      ensures tree.Valid() && status == P.Ok && Conserved(recs, [], tree.recs, f + Blocks(extent))
      ensures forall b: nat :: P.TimesFreed(tree.freed, b) == P.TimesFreed(old(tree.freed), b)
    {
      hide Flat, P.At, P.Sorted, SizeToBlocks, Conserved;
      ghost var was, log := tree.recs, tree.freed;
      status := P.Ok;
      if !extent.IsHole() {
        status := tree.AdjustRange(extent.phys, extent.len, 1);
        if status == P.Ok { TakenConserves(recs, was, log, tree.recs, tree.freed, extent, f); }
      } else {
        HoleConserves(recs, was, extent, f);
      }
    }

    /** apfs_clone_extents(): the new stream gets the same records, and every block
        one more reference for each time it is used. */
    method CloneExtents() returns (status: P.Status, clone: seq<Ext>)
      requires Valid() && !dirty
      modifies this`cache, tree
      ensures status == P.Ok && Valid() && clone == exts
      ensures Conserved(old(tree.recs), [], tree.recs, Flat(clone))
      ensures forall b: nat :: P.TimesFreed(tree.freed, b) == P.TimesFreed(old(tree.freed), b)
    {
      hide Flat, P.At, P.Sorted, SizeToBlocks, Conserved, Contiguous, Blocks, EndsBy;
      status, clone := P.Ok, [];
      var next := 0;
      AllBlocks(exts, 0);
      NothingChanged(tree.recs);
      while !EndsBy(size, next, bs)
        invariant Valid() && !dirty && status == P.Ok
        invariant |clone| <= |exts| && clone == exts[..|clone|]
        invariant next == if |clone| < |exts| then exts[|clone|].addr else |Flat(exts)|
        invariant Conserved(old(tree.recs), [], tree.recs, Flat(clone))
        invariant forall b: nat :: P.TimesFreed(tree.freed, b) == P.TimesFreed(old(tree.freed), b)
        decreases |exts| - |clone|
      {
        EndsByBlocks(size, next, bs);
        AllBlocks(exts, |clone|);
        var extent;
        status, extent := ExtentRead(next);
        if status != P.Ok { return; }
        SameRecord(exts, |clone|, extent);
        status := CloneSingleExtent(extent, old(tree.recs), Flat(clone));
        if status != P.Ok { return; }
        FlatConcat(clone, [extent]);
        FlatOne(extent);
        clone := clone + [extent];
        AllBlocks(exts, |clone|);
        next := next + extent.len;
      }
      EndsByBlocks(size, next, bs);
      AllBlocks(exts, |clone|);
    }
  }

  /** A file that is one hole, cached by a read. When the next block gets the physical block
      whose number is the length of the hole, the map says that it is a hole too: block
      262144, for example, after a hole of a gigabyte. */
  method SparseAppend(n: nat) returns (d: Dstream)
    requires n > 0
    ensures fresh(d) && d.dirty && d.bs == 4096 && d.cache.addr <= |Flat(d.exts)|
    ensures d.View() != Written(Holes(n), n, n)
  {
    hide SizeToBlocks, Holes, Flat;
    var tree := new P.ExtentRefTree();
    d := new Dstream(4096, tree, 0);
    var hole := Ext(0, n, 0);
    ExactEnd(n * 4096, n, 4096);
    ExactEnd((n + 1) * 4096, n + 1, 4096);
    FlatOne(hole);
    HolesCount(n, 0);
    assert Blocks(hole) == Holes(n);
    d.size, d.sparse, d.exts, d.cache := n * 4096, n, [hole], hole;
    assert d.Valid() && d.Fresh(n);
    var status := d.NewBlock(n, n, (n + 1) * 4096);
  }

  /** A file of one block that belongs to a snapshot, with nothing in the live tree. */
  method SnapshotFile() returns (d: Dstream)
    ensures fresh(d) && fresh(d.tree) && d.bs == 4096 && d.size == 4096
    ensures d.Valid() && d.Fresh(101) && d.Grows(1, 101) && !d.cache.IsHole() && !d.dirty
    ensures d.tree.recs == [] && Flat(d.exts) == [100]
  {
    var tree := new P.ExtentRefTree();
    d := new Dstream(4096, tree, 1);
    var ext := Ext(0, 1, 100);
    ExactEnd(4096, 1, 4096);
    FlatOne(ext);
    assert Blocks(ext) == [100];
    d.size, d.exts, d.cache := 4096, [ext], ext;
  }

  /** Growing it charges the snapshot's block to the live tree. */
  method AppendAfterSnapshot() returns (d: Dstream)
    ensures d.Valid() && Flat(d.exts) == [100, 101]
    ensures !Conserved([], [100], d.tree.recs, Flat(d.exts))
  {
    hide Flat, Overlay, Conserved, P.Sorted, P.RangeInSnap, Contiguous;
    d := SnapshotFile();
    ExactEnd(4096, 1, 4096);
    ExactEnd(8192, 2, 4096);
    ghost var recs, f := d.tree.recs, Flat(d.exts);
    var status := d.NewBlock(1, 101, 8192);
    ghost var recs1, f1 := d.tree.recs, Flat(d.exts);
    assert !d.Tracked();
    status := d.FlushExtentCache();
    ConservedSince(recs, f, recs1, f1, d.tree.recs, Flat(d.exts));
  }
}
