/** Whole runs of writes and truncations on a data stream, against a plain array of block
    numbers. */
module DstreamRuns {
  import opened Dstreams
  import opened Extents
  import P = PhysExtents

  /** A write to one block, which was allocated for it, or a new size. Both come with a
      block for the rewrite of the last one, if that is due. */
  datatype Op = Write(dsblock: nat, bno: nat, newSize: nat, tailBno: nat) | Truncate(newSize: nat, tailBno: nat)

  /** The block map, and whether its last block has just been rewritten. */
  datatype Moment = Moment(size: nat, view: seq<nat>, zeroed: bool)

  /** Where a write puts its block, an array that is long enough has it. */
  function Plain(bs: nat, m: Moment, op: Op, zeroed: bool): Moment
    requires bs > 0
  {
    var n := SizeToBlocks(op.newSize, bs);
    match op
    case Write(dsblock, bno, newSize, tailBno) =>
      Moment(newSize, Dstreams.Written(Zeroed(m.view, zeroed, tailBno), dsblock, bno), zeroed)
    case Truncate(newSize, tailBno) =>
      if newSize <= m.size && n <= |m.view| then Moment(newSize, m.view[..n], zeroed)
      else Moment(newSize, Zeroed(m.view, zeroed, tailBno) + Holes(if n < |m.view| then 0 else n - |m.view|), zeroed)
  }

  /** The last block is only rewritten if it is not full, and the stream grows. */
  predicate MayZero(bs: nat, m: Moment, op: Op)
    requires bs > 0
  {
    && m.size % bs != 0 && op.tailBno > 0
    && if op.Write? then |m.view| <= op.dsblock else m.size < op.newSize
  }

  ghost predicate IsHistory(bs: nat, ops: seq<Op>, history: seq<Moment>)
    requires bs > 0
  {
    && |history| == |ops| + 1
    && forall i :: 0 <= i < |ops| ==> Follows(bs, ops[i], history[i], history[i + 1])
  }

  ghost predicate Follows(bs: nat, op: Op, a: Moment, b: Moment)
    requires bs > 0
  {
    b == Plain(bs, a, op, b.zeroed) && (b.zeroed ==> MayZero(bs, a, op))
  }

  /** The blocks are free, and a write reaches its block. */
  predicate Proper(d: Dstream, op: Op)
    requires d.bs > 0
    reads d, d.tree
  {
    && (op.tailBno > 0 ==> d.Fresh(op.tailBno))
    && (op.Write? ==>
      && d.Fresh(op.bno) && op.bno != op.tailBno && op.newSize >= d.size
      && d.Blks(op.newSize) == if op.dsblock < d.Blks(d.size) then d.Blks(d.size) else op.dsblock + 1)
  }

  /** A write that extends a cached hole, without a rewrite of the last block before. */
  predicate Loses(d: Dstream, op: Op)
    requires d.bs > 0 && d.tree.Valid()
    reads d, d.tree
  {
    op.Write? && d.LosesBlock(op.dsblock, op.bno) && !(d.Blks(d.size) <= op.dsblock && d.StaleTail() && op.tailBno > 0)
  }

  /** What an operation does to the references, and the blocks that it frees. */
  ghost predicate Accounts(op: Op, s: State, view: seq<nat>, zeroed: bool, now: P.Refs)
    requires s.Ok()
  {
    match op
    case Write(dsblock, bno, newSize, tailBno) =>
      && (zeroed <==> SizeToBlocks(s.size, s.bs) <= dsblock && s.StaleTail() && tailBno > 0)
      && WroteTo(s, view, zeroed, s.Grows(dsblock, bno), dsblock, bno, tailBno, now)
    case Truncate(newSize, tailBno) =>
      if newSize > s.size then FlushedTo(s, now)
      else SizeToBlocks(newSize, s.bs) <= |view| && Settled(s, view[SizeToBlocks(newSize, s.bs)..], now)
  }

  lemma PlainSize(bs: nat, m: Moment, op: Op)
    requires bs > 0
    ensures var p := Plain(bs, m, op, false); p.size == op.newSize && !p.zeroed
  {
    hide SizeToBlocks;
  }

  method Step(d: Dstream, op: Op, ghost m: Moment) returns (ghost m2: Moment)
    requires d.Valid() && Proper(d, op) && m.size == d.size && m.view == d.View()
    modifies d, d.tree
    ensures Follows(d.bs, op, m, Plain(d.bs, m, op, m2.zeroed)) && m2.size == d.size == op.newSize
    ensures d.cache.addr <= |Flat(d.exts)| || !d.dirty
    ensures m2.view == d.View()
    ensures m2 == Plain(d.bs, m, op, m2.zeroed) <==> !old(Loses(d, op))
    ensures if old(Loses(d, op)) then !m2.zeroed else d.Valid()
    ensures old(d.St()).Ok() && Accounts(op, old(d.St()), m.view, m2.zeroed, d.tree.St())
  {
    hide Flat, Contiguous, Overlay, P.At, P.Sorted, Dstreams.Written, SizeToBlocks, Conserved, FlushedTo, Settled;
    hide WroteTo, State.Ok;
    var status;
    d.StOk();
    d.NonEmpty(op.tailBno);
    match op
    case Write(dsblock, bno, newSize, tailBno) =>
      ghost var zeroes;
      status, zeroes := d.Write(dsblock, bno, newSize, tailBno);
      m2 := Moment(d.size, d.View(), zeroes);
    case Truncate(newSize, tailBno) =>
      ghost var zeroes := newSize > d.size && d.RewritesTail(d.View(), tailBno);
      status := d.Truncate(newSize, tailBno);
      m2 := Moment(d.size, d.View(), zeroes);
  }

  /** Any run of operations. The block map is always that of the plain array, up to the
      first write that extends a cached hole: that one always goes wrong. The references are
      accounted for at each step. */
  method Run(d: Dstream, ops: seq<Op>)
    returns (done: nat, lost: bool, ghost history: seq<Moment>, ghost states: seq<State>)
    requires d.Valid()
    modifies d, d.tree
    ensures done <= |ops| && IsHistory(d.bs, ops[..done], history) &&
      history[0] == Moment(old(d.size), old(d.View()), false)
    ensures !lost ==> d.Valid() && history[done].size == d.size && history[done].view == d.View()
    ensures !lost && done < |ops| ==> !Proper(d, ops[done])
    ensures d.dirty ==> d.cache.addr <= |Flat(d.exts)|
    ensures lost ==> done < |ops| && ops[done].Write? && d.View() != Plain(d.bs, history[done], ops[done], false).view
    ensures IsAccount(ops[..done], history, states) && states[0] == old(d.St())
    ensures !lost ==> states[done] == d.St()
    ensures lost ==> Accounts(ops[done], states[done], history[done].view, false, d.tree.St())
  {
    hide Flat, Contiguous, Overlay, P.At, P.Sorted, Dstreams.Written, SizeToBlocks, Plain, Follows, Dstream.Fresh;
    hide Dstream.LosesBlock, Dstream.StaleTail, Dstream.Grows, Accounts, State.Ok, State.Unwritten;
    ghost var m := Moment(d.size, d.View(), false);
    d.StOk();
    done, lost, history, states := 0, false, [m], [d.St()];
    while done < |ops|
      invariant done <= |ops| && |history| == done + 1 == |states| && history[done] == m
      invariant history[0] == Moment(old(d.size), old(d.View()), false)
      invariant d.Valid() && m.size == d.size && m.view == d.View()
      invariant forall j :: 0 <= j < done ==> Follows(d.bs, ops[j], history[j], history[j + 1])
      invariant states[0] == old(d.St()) && states[done] == d.St()
      invariant forall j :: 0 <= j <= done ==> states[j].Ok() && states[j].Unwritten()
      invariant forall j :: 0 <= j < done ==>
        Accounts(ops[j], states[j], history[j].view, history[j + 1].zeroed, states[j + 1].refs)
    {
      var op := ops[done];
      if !Proper(d, op) {
        return;
      }
      lost := Loses(d, op);
      ghost var last := Step(d, op, m);
      if lost {
        PlainSize(d.bs, m, op);
        return;
      }
      d.StOk();
      history, m := history + [last], last;
      states := states + [d.St()];
      done := done + 1;
    }
  }

  ghost predicate IsAccount(ops: seq<Op>, history: seq<Moment>, states: seq<State>) {
    && |history| == |states| == |ops| + 1
    && (forall i :: 0 <= i < |states| ==> states[i].Ok() && states[i].Unwritten())
    && forall i :: 0 <= i < |ops| ==>
      Accounts(ops[i], states[i], history[i].view, history[i + 1].zeroed, states[i + 1].refs)
  }

  // Blocks that are given up

  function Own(r: P.Ref): nat { if P.Owned(r) then 1 else 0 }

  /** The flush would make the live tree the owner of a block. */
  ghost predicate Gains(s: State, b: nat)
    requires s.Ok()
  {
    P.Owned(s.AfterFlush(b)) && !P.Owned(P.At(s.refs.recs, b))
  }

  /** A block is owned by the live tree, or has been freed. */
  ghost predicate Balanced(was: P.Refs, now: P.Refs, b: nat) {
    P.TimesFreed(now.freed, b) + Own(P.At(now.recs, b)) == P.TimesFreed(was.freed, b) + Own(P.At(was.recs, b))
  }

  lemma PutsBalance(r: P.Ref, m: nat)
    requires r.Count() < P.REFCNT_MOD && (r.Present? ==> r.refcnt > 0)
    ensures P.PutsFree(r, m) + Own(P.Puts(r, m)) == Own(r)
    ensures P.Puts(r, m).Count() < P.REFCNT_MOD && (P.Puts(r, m).Present? ==> P.Puts(r, m).refcnt > 0)
  {
    P.PutsAre(r, m);
  }

  lemma FlushBalance(s: State, b: nat)
    requires s.Ok() && s.Unwritten() && !Gains(s, b)
    ensures s.FlushFrees(b) + Own(s.AfterFlush(b)) == Own(P.At(s.refs.recs, b))
    ensures s.AfterFlush(b).Count() < P.REFCNT_MOD && (s.AfterFlush(b).Present? ==> s.AfterFlush(b).refcnt > 0)
  {
    hide P.At, P.Sorted, P.Puts, P.WithExtent, State.Pushed;
    P.CountInRange(s.refs.recs, b);
    PutsBalance(P.At(s.refs.recs, b), Times(s.Pushed(), b));
    if s.dirty && s.clean > 0 {
      GrownBalance(s, b);
    } else if !s.dirty {
      NoPushes(s, b);
    }
  }

  lemma NoPushes(s: State, b: nat)
    requires s.Ok() && !s.dirty
    ensures Times(s.Pushed(), b) == 0 && P.Puts(P.At(s.refs.recs, b), 0) == P.At(s.refs.recs, b)
  {
  }

  lemma GrownBalance(s: State, b: nat)
    requires s.Ok() && s.Unwritten() && !Gains(s, b) && s.dirty && s.clean > 0
    ensures s.FlushFrees(b) == 0 && Own(s.AfterFlush(b)) == Own(P.At(s.refs.recs, b))
    ensures s.AfterFlush(b).Count() < P.REFCNT_MOD && (s.AfterFlush(b).Present? ==> s.AfterFlush(b).refcnt > 0)
  {
    hide P.At, P.Sorted, P.WithExtent;
    P.WithKept(s.refs.recs, s.cache.phys, s.cache.len, b);
    P.CountInRange(P.WithExtent(s.refs.recs, s.cache.phys, s.cache.len), b);
    assert s.Pushed() == [] && Times([], b) == 0;
  }

  lemma SettledBalance(s: State, d: seq<nat>, now: P.Refs, b: nat)
    requires s.Ok() && s.Unwritten() && !Gains(s, b) && SettledAt(s, d, now, b)
    ensures Balanced(s.refs, now, b)
  {
    hide P.At, P.Sorted, P.Puts, P.PutsFree, P.TimesFreed, State.AfterFlush, State.FlushFrees, State.Ok;
    hide State.Unwritten;
    FlushBalance(s, b);
    PutsBalance(s.AfterFlush(b), Times(d, b));
  }

  /** Each step gives up a block of the live tree exactly when it frees it. */
  lemma StepBalance(op: Op, s: State, view: seq<nat>, zeroed: bool, now: P.Refs, b: nat)
    requires s.Ok() && s.Unwritten() && Accounts(op, s, view, zeroed, now) && !Gains(s, b) && op.tailBno != b
    ensures Balanced(s.refs, now, b)
  {
    hide P.At, P.Sorted, P.Puts, P.PutsFree, P.TimesFreed, State.AfterFlush, State.FlushFrees, State.Unwritten;
    hide SizeToBlocks, SettledAt, Gains, Flat;
    if op.Write? {
      if zeroed && !(op.dsblock == |view| && op.bno == op.tailBno + 1) {
        SettledBalance(s, [view[|view| - 1]], now, b);
      } else if zeroed || !s.Grows(op.dsblock, op.bno) {
        FlushedBalance(s, now, b);
      }
    } else if op.newSize > s.size {
      FlushedBalance(s, now, b);
    } else {
      SettledBalance(s, view[SizeToBlocks(op.newSize, s.bs)..], now, b);
    }
  }

  lemma FlushedBalance(s: State, now: P.Refs, b: nat)
    requires s.Ok() && s.Unwritten() && !Gains(s, b) && FlushedTo(s, now)
    ensures Balanced(s.refs, now, b)
  {
    hide P.At, P.Sorted, P.Puts, P.PutsFree, P.TimesFreed, State.AfterFlush, State.FlushFrees, State.Ok;
    hide State.Unwritten;
    FlushBalance(s, b);
    assert FlushedAt(s, now, b);
  }

  /** Over any run, a block that the live tree owns is still owned in the end, or else it has
      been freed exactly once; and no other block is ever freed, unless the stream got it in
      the meantime. */
  lemma {:induction false} OwnedOrFreed(ops: seq<Op>, history: seq<Moment>, states: seq<State>, b: nat)
    requires IsAccount(ops, history, states)
    requires forall i :: 0 <= i < |ops| ==> !Gains(states[i], b) && ops[i].tailBno != b
    ensures Balanced(states[0].refs, states[|ops|].refs, b)
  {
    hide State.Ok, State.Unwritten, Accounts, Gains, P.At, P.TimesFreed;
    if ops != [] {
      var n := |ops| - 1;
      var ops1, history1, states1 := ops[..n], history[..n + 1], states[..n + 1];
      assert IsAccount(ops1, history1, states1);
      OwnedOrFreed(ops1, history1, states1, b);
      assert Accounts(ops[n], states[n], history[n].view, history[n + 1].zeroed, states[n + 1].refs);
      StepBalance(ops[n], states[n], history[n].view, history[n + 1].zeroed, states[n + 1].refs, b);
    }
  }

  /** The operation leaves a block of the stream alone. */
  predicate Spares(bs: nat, op: Op, a: Moment, b: Moment, dsblock: nat)
    requires bs > 0
  {
    && (op.Write? ==> op.dsblock != dsblock)
    && (op.Truncate? ==> dsblock < SizeToBlocks(op.newSize, bs))
    && (b.zeroed ==> dsblock != |a.view| - 1)
  }

  lemma SparedStep(bs: nat, op: Op, a: Moment, b: Moment, dsblock: nat)
    requires bs > 0 && Follows(bs, op, a, b) && Spares(bs, op, a, b, dsblock) && dsblock < |a.view|
    ensures dsblock < |b.view| && b.view[dsblock] == a.view[dsblock]
  {
    hide SizeToBlocks;
  }

  lemma WriteStep(bs: nat, op: Op, a: Moment, b: Moment)
    requires bs > 0 && Follows(bs, op, a, b) && op.Write?
    ensures op.dsblock < |b.view| && b.view[op.dsblock] == op.bno
  {
    hide SizeToBlocks;
  }

  /** The block that a write put in the map stays there until it is overwritten, until the
      stream is cut before it, or until it is rewritten as the last one. */
  lemma {:induction false} WrittenStays(bs: nat, ops: seq<Op>, history: seq<Moment>, i: nat, j: nat)
    requires bs > 0 && IsHistory(bs, ops, history) && i < j <= |ops| && ops[i].Write?
    requires forall k :: i < k < j ==> Spares(bs, ops[k], history[k], history[k + 1], ops[i].dsblock)
    ensures ops[i].dsblock < |history[j].view| && history[j].view[ops[i].dsblock] == ops[i].bno
    decreases j - i
  {
    hide Follows, Spares;
    if i + 1 == j {
      WriteStep(bs, ops[i], history[i], history[i + 1]);
    } else {
      WrittenStays(bs, ops, history, i, j - 1);
      SparedStep(bs, ops[j - 1], history[j - 1], history[j - 1 + 1], ops[i].dsblock);
    }
  }

  /** The operation puts no block somewhere in the stream. */
  predicate LeavesHole(op: Op, a: Moment, b: Moment, dsblock: nat) {
    (op.Write? ==> op.dsblock != dsblock) && (b.zeroed ==> dsblock != |a.view| - 1)
  }

  lemma HoleStep(bs: nat, op: Op, a: Moment, b: Moment, dsblock: nat)
    requires bs > 0 && Follows(bs, op, a, b) && LeavesHole(op, a, b, dsblock)
    requires dsblock < |a.view| ==> a.view[dsblock] == 0
    ensures dsblock < |b.view| ==> b.view[dsblock] == 0
  {
    hide SizeToBlocks;
  }

  /** Until something is written to it, a hole is a hole. */
  lemma {:induction false} HoleStays(bs: nat, ops: seq<Op>, history: seq<Moment>, i: nat, j: nat, dsblock: nat)
    requires bs > 0 && IsHistory(bs, ops, history) && i <= j <= |ops|
    requires dsblock < |history[i].view| ==> history[i].view[dsblock] == 0
    requires forall k :: i <= k < j ==> LeavesHole(ops[k], history[k], history[k + 1], dsblock)
    ensures dsblock < |history[j].view| ==> history[j].view[dsblock] == 0
    decreases j - i
  {
    hide Follows, LeavesHole;
    if i < j {
      HoleStays(bs, ops, history, i, j - 1, dsblock);
      HoleStep(bs, ops[j - 1], history[j - 1], history[j - 1 + 1], dsblock);
    }
  }
}
