/** Whole runs of the space manager: blocks are allocated and freed, and transactions end
    and begin, in any order. */
module SpaceRuns {
  import opened Bitmaps
  import opened Spaceman
  import opened SpaceManagers

  datatype Op = Allocate(backwards: bool) | Free(bno: nat) | Commit

  /** The blocks of the filesystem, those that the last checkpoint needs, and those that
      were freed since. The last one is the block that was just allocated, or zero. */
  datatype Moment = Moment(live: set<nat>, committed: set<nat>, freed: set<nat>, got: nat)

  /** What each operation may do. */
  ghost predicate Follows(op: Op, a: Moment, b: Moment) {
    match op
    case Allocate(_) =>
      || b == a.(got := 0)
      || (b == a.(live := a.live + {b.got}, got := b.got) && b.got > 0 && b.got !in a.live &&
        b.got !in a.committed && b.got !in a.freed)
    case Free(x) =>
      b == if x in a.live && x > 0 then a.(live := a.live - {x}, freed := a.freed + {x}, got := 0) else a.(got := 0)
    case Commit =>
      a.live <= b.committed && b == Moment(a.live, b.committed, {}, 0)
  }

  ghost predicate IsHistory(ops: seq<Op>, history: seq<Moment>) {
    && |history| == |ops| + 1
    && forall i :: 0 <= i < |ops| ==> Follows(ops[i], history[i], history[i + 1])
  }

  /** The blocks that are freed wait for the next transaction. */
  ghost predicate StillUsed(sm: Sm, freed: set<nat>) {
    sm.Shape() && forall b :: b in freed ==> sm.UsedBit(b)
  }

  method FreeBlock(sm: SpaceManager, bno: nat, ghost m: Moment, ghost kept: map<nat, seq<bool>>)
    requires sm.St().Inv(m.live, 0, 0, m.committed, kept) && sm.xid > 0 && bno in m.live && bno > 0
    requires StillUsed(sm.St(), m.freed)
    modifies sm
    ensures sm.St().Inv(m.live - {bno}, 0, 0, m.committed, kept) && sm.xid == old(sm.xid)
    ensures StillUsed(sm.St(), m.freed + {bno})
  {
    hide Sm.Inv, Sm.UsedBit, Sm.QueueInsert, Sm.Shape;
    ghost var was := sm.St();
    QueueInsertKeeps(was, m.live, m.committed, kept, bno, 1);
    assert m.live - Range(bno, 1) == m.live - {bno};
    LiveUsed(was, m, kept, bno);
    sm.FreeQueueInsert(bno, 1);
    QueuedSame(was, bno);
    forall b | b in m.freed + {bno}
      ensures sm.St().UsedBit(b)
    {
      SameUsed(was, sm.St(), b);
    }
  }

  lemma LiveUsed(sm: Sm, m: Moment, kept: map<nat, seq<bool>>, b: nat)
    requires sm.Inv(m.live, 0, 0, m.committed, kept) && b in m.live
    ensures sm.Shape() && sm.UsedBit(b)
  {
    assert sm.OwnedBlock(m.live, 0, 0, b);
  }

  lemma QueuedSame(sm: Sm, bno: nat)
    requires sm.Shape()
    ensures SameBits(sm, sm.QueueInsert(bno, 1)) && sm.QueueInsert(bno, 1).ipUsed == sm.ipUsed
    ensures sm.QueueInsert(bno, 1).xid == sm.xid
  {
    QueuesSame(sm, sm.QueueInsert(bno, 1));
  }

  /** A transaction ends, and the next one begins. */
  method NextTransaction(sm: SpaceManager, ghost live: set<nat>, ghost committed: set<nat>,
                         ghost kept: map<nat, seq<bool>>)
    returns (status: Status, ghost used: set<nat>, ghost kept2: map<nat, seq<bool>>)
    requires sm.St().Inv(live, 0, 0, committed, kept) && sm.xid > 0
    modifies sm
    ensures status == Ok ==> live <= used && sm.St().Inv(live, 0, 0, used, kept2) && sm.xid == old(sm.xid) + 1
    ensures status != Ok ==> Zeros(sm.ipUsed) == 0
  {
    hide Sm.Inv;
    sm.CommitQueues(live, committed, kept);
    used, kept2 := live + sm.St().OwnBlocks(), sm.disk;
    ghost var last;
    status, last := sm.StartTransaction(sm.xid + 1, live, committed, kept);
  }

  ghost predicate Ready(sm: SpaceManager, m: Moment, kept: map<nat, seq<bool>>)
    reads sm
  {
    sm.St().Inv(m.live, 0, 0, m.committed, kept) && sm.xid > 0 && StillUsed(sm.St(), m.freed)
  }

  method AllocateStep(sm: SpaceManager, backwards: bool, ghost m: Moment, ghost kept: map<nat, seq<bool>>)
    returns (status: Status, got: nat)
    requires Ready(sm, m, kept)
    modifies sm
    ensures status == Corrupted ==> Zeros(old(sm.ipUsed)) < 2
    ensures status == NoSpace ==> Ready(sm, m.(got := 0), kept)
    ensures status == Ok ==> Ready(sm, m.(live := m.live + {got}, got := got), kept)
    ensures status == Ok ==> got > 0 && got !in m.live && got !in m.committed && got !in m.freed
  {
    hide Sm.UsedBit, Sm.Owned, Sm.Counted, Sm.Protects, Sm.Dated, FirstFit;
    status, got := sm.AllocateBlock(backwards, m.live, m.committed, kept);
    assert 0 in m.live;
  }

  /** The pool of the space manager has run out of blocks for its own bitmaps. */
  predicate PoolOut(op: Op, was: seq<bool>, now: seq<bool>) {
    (op.Allocate? && Zeros(was) < 2) || (op == Commit && Zeros(now) == 0)
  }

  /** One operation. */
  method Step(sm: SpaceManager, op: Op, live: set<nat>, ghost m: Moment, ghost kept: map<nat, seq<bool>>)
    returns (status: Status, live2: set<nat>, ghost m2: Moment, ghost kept2: map<nat, seq<bool>>)
    requires Ready(sm, m, kept) && m.live == live
    modifies sm
    ensures status == Ok ==> Ready(sm, m2, kept2) && Follows(op, m, m2) && m2.live == live2
    ensures status != Ok ==> live2 == live && PoolOut(op, old(sm.ipUsed), sm.ipUsed)
  {
    hide Sm.Inv, Sm.UsedBit;
    status, live2, m2, kept2 := Ok, live, m.(got := 0), kept;
    match op
    case Allocate(backwards) =>
      var got;
      status, got := AllocateStep(sm, backwards, m, kept);
      if status == Ok {
        live2 := live + {got};
        m2 := m.(live := live2, got := got);
      } else if status == NoSpace {
        status := Ok;
      }
    case Free(bno) =>
      if bno in live && bno > 0 {
        FreeBlock(sm, bno, m, kept);
        live2 := live - {bno};
        m2 := m.(live := live2, freed := m.freed + {bno}, got := 0);
      }
    case Commit =>
      ghost var used;
      status, used, kept2 := NextTransaction(sm, live, m.committed, kept);
      m2 := Moment(live, used, {}, 0);
      if status == Ok { NothingFreed(sm, m2, kept2); }
  }

  lemma NothingFreed(sm: SpaceManager, m: Moment, kept: map<nat, seq<bool>>)
    requires sm.St().Inv(m.live, 0, 0, m.committed, kept) && m.freed == {}
    ensures StillUsed(sm.St(), {})
  {
  }

  lemma AllUsed(sm: SpaceManager, m: Moment, kept: map<nat, seq<bool>>, b: nat)
    requires Ready(sm, m, kept)
    ensures sm.St().Shape() && sm.St().Counted()
    ensures b in m.live + m.committed + m.freed ==> sm.St().UsedBit(b)
  {
    hide Sm.UsedBit;
    if b in m.live { LiveUsed(sm.St(), m, kept, b); }
  }

  /** Everything in use or protected has its bit set, and the counts are right. */
  ghost predicate Safe(sm: Sm, m: Moment) {
    && sm.Shape() && sm.Counted()
    && forall b: nat :: b in m.live + m.committed + m.freed ==> sm.UsedBit(b)
  }

  lemma ReadySafe(sm: SpaceManager, m: Moment, kept: map<nat, seq<bool>>)
    requires Ready(sm, m, kept)
    ensures Safe(sm.St(), m)
  {
    hide Sm.Inv, Sm.UsedBit, StillUsed, Sm.Counted, Sm.Shape;
    AllUsed(sm, m, kept, 0);
    forall b: nat | b in m.live + m.committed + m.freed
      ensures sm.St().UsedBit(b)
    {
      AllUsed(sm, m, kept, b);
    }
  }

  /** Any run of operations. It only stops early if the pool of the space manager itself
      runs out, and up to there everything is as it should be. */
  method Run(sm: SpaceManager, ops: seq<Op>, live0: set<nat>, ghost committed0: set<nat>,
             ghost kept0: map<nat, seq<bool>>)
    returns (status: Status, live: set<nat>, done: nat, ghost history: seq<Moment>, ghost states: seq<Sm>)
    requires sm.St().Inv(live0, 0, 0, committed0, kept0) && sm.xid > 0
    modifies sm
    ensures done <= |ops| && IsHistory(ops[..done], history) && history[0] == Moment(live0, committed0, {}, 0)
    ensures |states| == |history| && forall i :: 0 <= i < |history| ==> Safe(states[i], history[i])
    ensures states[0] == old(sm.St()) && live == history[done].live
    ensures status == Ok ==> done == |ops| && states[done] == sm.St()
    ensures status != Ok ==> done < |ops| && PoolOut(ops[done], states[done].ipUsed, sm.ipUsed)
  {
    hide Sm.Inv, Sm.UsedBit, StillUsed, Follows, Sm.Counted, Sm.Shape, Safe, PoolOut;
    live, done := live0, 0;
    ghost var m, kept := Moment(live0, committed0, {}, 0), kept0;
    NothingFreed(sm, m, kept);
    ReadySafe(sm, m, kept);
    history, states := [m], [sm.St()];
    while done < |ops|
      invariant done <= |ops| && |history| == done + 1 == |states| && history[done] == m && m.live == live
      invariant history[0] == Moment(live0, committed0, {}, 0) && states[0] == old(sm.St()) && states[done] == sm.St()
      invariant forall j :: 0 <= j < done ==> Follows(ops[j], history[j], history[j + 1])
      invariant forall j :: 0 <= j <= done ==> Safe(states[j], history[j])
      invariant Ready(sm, m, kept)
    {
      status, live, m, kept := Step(sm, ops[done], live, m, kept);
      if status != Ok {
        return;
      }
      ReadySafe(sm, m, kept);
      history, states := history + [m], states + [sm.St()];
      done := done + 1;
    }
    status := Ok;
  }

  /** The last checkpoint and the blocks freed since stay as they are, or grow, until the
      next commit. */
  lemma {:induction false} ProtectedUntilCommit(ops: seq<Op>, history: seq<Moment>, i: nat, j: nat)
    requires IsHistory(ops, history) && i <= j <= |ops|
    requires forall k :: i <= k < j ==> ops[k] != Commit
    ensures history[j].committed == history[i].committed && history[i].freed <= history[j].freed
    decreases j - i
  {
    if i < j {
      ProtectedUntilCommit(ops, history, i, j - 1);
      assert Follows(ops[j - 1], history[j - 1], history[j - 1 + 1]);
    }
  }

  /** No block is ever handed out while it is in use, while the last checkpoint needs it,
      or in the transaction that freed it. */
  lemma NeverReused(ops: seq<Op>, history: seq<Moment>, i: nat, j: nat, b: nat)
    requires IsHistory(ops, history) && i < j <= |ops| && b > 0
    requires forall k :: i <= k < j ==> ops[k] != Commit
    requires b in history[i].committed || b in history[i].freed || b in history[j - 1].live
    ensures history[j].got != b
  {
    ProtectedUntilCommit(ops, history, i, j - 1);
    assert Follows(ops[j - 1], history[j - 1], history[j - 1 + 1]);
  }
}
