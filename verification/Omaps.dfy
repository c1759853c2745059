/** The volume's object map (btree.c, snapshot.c): a tree of (object id, transaction
    id) keys, with a direct-mapped cache in front of it. A query finds the greatest
    key not above the wanted one, and its caller does not check the object id. The
    version of an object that a record maps has the record's own transaction id. */
module Omaps {

  datatype Rec = Rec(oid: nat, xid: nat, bno: nat)

  datatype Option<T> = None | Some(value: T)

  predicate KeyLess(a: Rec, oid: nat, xid: nat) { a.oid < oid || (a.oid == oid && a.xid < xid) }

  predicate KeyLeq(a: Rec, oid: nat, xid: nat) { a.oid < oid || (a.oid == oid && a.xid <= xid) }

  ghost predicate Sorted(s: seq<Rec>) {
    forall i, j :: 0 <= i < j < |s| ==> KeyLess(s[i], s[j].oid, s[j].xid)
  }

  /** The record that a query for this key finds, if any. */
  function FloorRec(s: seq<Rec>, oid: nat, xid: nat): (i: int)
    requires Sorted(s)
    ensures -1 <= i < |s|
    ensures forall k :: 0 <= k <= i ==> KeyLeq(s[k], oid, xid)
    ensures forall k :: i < k < |s| ==> !KeyLeq(s[k], oid, xid)
  {
    if s == [] then -1
    else if KeyLeq(s[|s| - 1], oid, xid) then |s| - 1
    else FloorRec(s[..|s| - 1], oid, xid)
  }

  /** What the map means: the block of an object's newest version at a transaction. */
  function LookupAt(s: seq<Rec>, oid: nat, xid: nat): Option<nat>
    requires Sorted(s)
  {
    var i := FloorRec(s, oid, xid);
    if i >= 0 && s[i].oid == oid then Some(s[i].bno) else None
  }

  ghost predicate Newest(s: seq<Rec>, oid: nat, xid: nat, r: Rec) {
    && r in s && r.oid == oid && r.xid <= xid
    && forall q :: q in s && q.oid == oid && q.xid <= xid ==> q.xid <= r.xid
  }

  lemma LookupIsNewest(s: seq<Rec>, oid: nat, xid: nat)
    requires Sorted(s)
    ensures forall r :: Newest(s, oid, xid, r) ==> LookupAt(s, oid, xid) == Some(r.bno)
    ensures LookupAt(s, oid, xid).Some? ==> Newest(s, oid, xid, s[FloorRec(s, oid, xid)])
    ensures LookupAt(s, oid, xid).None? <==> forall r :: r in s && r.oid == oid ==> r.xid > xid
  {
    var i := FloorRec(s, oid, xid);
    forall r | r in s && r.oid == oid && r.xid <= xid
      ensures i >= 0 && s[i].oid == oid && r.xid <= s[i].xid <= xid
      ensures r.xid == s[i].xid ==> r == s[i]
    {
      var k :| 0 <= k < |s| && s[k] == r;
      assert k <= i;
    }
  }

  /** Lookups at a transaction only depend on the records up to it. */
  lemma SameBelow(s: seq<Rec>, t: seq<Rec>, oid: nat, xid: nat)
    requires Sorted(s) && Sorted(t)
    requires forall r: Rec :: r.oid == oid && r.xid <= xid ==> (r in s <==> r in t)
    ensures LookupAt(s, oid, xid) == LookupAt(t, oid, xid)
  {
    LookupIsNewest(s, oid, xid);
    LookupIsNewest(t, oid, xid);
    if LookupAt(s, oid, xid).Some? {
      assert Newest(t, oid, xid, s[FloorRec(s, oid, xid)]);
    }
  }

  // The operations on the tree's records

  datatype State = State(recs: seq<Rec>, latestSnap: nat, xid: nat) {

    /** Keys are ordered, no two records share a block, and nothing is newer than
        the current transaction, which comes after all snapshots. */
    ghost predicate Valid() {
      && Sorted(recs) && latestSnap < xid
      && (forall i :: 0 <= i < |recs| ==> recs[i].xid <= xid)
      && (forall i, j :: 0 <= i < j < |recs| ==> recs[i].bno != recs[j].bno)
    }

    predicate Mapped(oid: nat)
      requires Valid()
    {
      LookupAt(recs, oid, xid).Some?
    }

    ghost predicate FreshBlock(bno: nat) { forall i :: 0 <= i < |recs| ==> recs[i].bno != bno }

    /** A query finds some record, which may be that of another object. */
    predicate Finds(oid: nat)
      requires Valid()
    {
      FloorRec(recs, oid, xid) >= 0
    }

    /** The record that lookups for the current transaction find. */
    function Found(oid: nat): (i: nat)
      requires Valid() && Finds(oid)
      ensures i < |recs| && (recs[i].oid == oid <==> Mapped(oid))
    {
      FloorRec(recs, oid, xid)
    }

    /** Lookup with write access: the object gets a new block, unless it already has
        one in this transaction, and snapshots keep the old record. */
    function WriteBlock(oid: nat, newBno: nat): nat
      requires Valid() && Finds(oid)
    {
      if recs[Found(oid)].xid == xid then recs[Found(oid)].bno else newBno
    }

    function Write(oid: nat, newBno: nat): State
      requires Valid() && Finds(oid)
    {
      var i := Found(oid);
      var r := Rec(oid, xid, WriteBlock(oid, newBno));
      if recs[i].xid <= latestSnap then this.(recs := recs[..i + 1] + [r] + recs[i + 1..])
      else this.(recs := recs[i := r])
    }

    function Create(oid: nat, bno: nat): State
      requires Valid()
    {
      var p := FloorRec(recs, oid, xid) + 1;
      this.(recs := recs[..p] + [Rec(oid, xid, bno)] + recs[p..])
    }

    function Delete(oid: nat): State
      requires Valid() && Finds(oid)
    {
      this.(recs := recs[..Found(oid)] + recs[Found(oid) + 1..])
    }

    /** A snapshot is taken at the end of a transaction, which is committed at once. */
    function TakeSnapshot(): State { this.(latestSnap := xid, xid := xid + 1) }

    function NextTransaction(): State { this.(xid := xid + 1) }
  }

  // What each operation keeps

  /** Whoever looks up any object at any snapshot sees what they saw before. */
  ghost predicate Isolated(s: State, t: State)
    requires Sorted(s.recs) && Sorted(t.recs)
  {
    forall oid: nat, x: nat :: x <= s.latestSnap ==> LookupAt(t.recs, oid, x) == LookupAt(s.recs, oid, x)
  }

  ghost predicate IsInserted(s: seq<Rec>, p: nat, r: Rec, t: seq<Rec>) {
    p <= |s| && t == s[..p] + [r] + s[p..]
  }

  lemma InsertedMembers(s: seq<Rec>, p: nat, r: Rec, t: seq<Rec>, q: Rec)
    requires IsInserted(s, p, r, t)
    ensures q in t <==> q in s || q == r
  {
    assert s == s[..p] + s[p..];
  }

  lemma InsertedSorted(s: seq<Rec>, r: Rec, t: seq<Rec>)
    requires Sorted(s) && (forall i :: 0 <= i < |s| ==> s[i].oid != r.oid || s[i].xid != r.xid)
    requires IsInserted(s, FloorRec(s, r.oid, r.xid) + 1, r, t)
    ensures Sorted(t)
  {
    hide Sorted;
    var p := FloorRec(s, r.oid, r.xid) + 1;
    forall a, b | 0 <= a < b < |t| ensures KeyLess(t[a], t[b].oid, t[b].xid) {
      if a < p && b == p { assert KeyLeq(s[a], r.oid, r.xid); }
      if a != p && b != p { InOrder(s, if a < p then a else a - 1, if b < p then b else b - 1); }
    }
    SortedBy(t);
  }

  lemma InOrder(s: seq<Rec>, i: nat, j: nat)
    requires Sorted(s) && i < j < |s|
    ensures KeyLess(s[i], s[j].oid, s[j].xid)
  {}

  lemma SortedBy(s: seq<Rec>)
    requires forall i, j :: 0 <= i < j < |s| ==> KeyLess(s[i], s[j].oid, s[j].xid)
    ensures Sorted(s)
  {}

  lemma InsertedDistinct(s: seq<Rec>, p: nat, r: Rec, t: seq<Rec>)
    requires IsInserted(s, p, r, t)
    requires forall i, j :: 0 <= i < j < |s| ==> s[i].bno != s[j].bno
    requires forall i :: 0 <= i < |s| ==> s[i].bno != r.bno
    ensures forall i, j :: 0 <= i < j < |t| ==> t[i].bno != t[j].bno
  {
    forall i, j | 0 <= i < j < |t|
      ensures t[i].bno != t[j].bno
    {
      if i != p && j != p {
        var k, l := if i < p then i else i - 1, if j < p then j else j - 1;
        assert t[i] == s[k] && t[j] == s[l] && k < l;
      }
    }
  }

  /** A record is added for the current transaction. */
  lemma InsertedValid(st: State, r: Rec, t: seq<Rec>)
    requires st.Valid() && r.xid == st.xid && st.FreshBlock(r.bno)
    requires forall i :: 0 <= i < |st.recs| ==> st.recs[i].oid != r.oid || st.recs[i].xid != r.xid
    requires IsInserted(st.recs, FloorRec(st.recs, r.oid, r.xid) + 1, r, t)
    ensures st.(recs := t).Valid()
  {
    hide Sorted, FloorRec, IsInserted;
    var p := FloorRec(st.recs, r.oid, r.xid) + 1;
    InsertedSorted(st.recs, r, t);
    InsertedMost(st.recs, p, r, t, st.xid);
    InsertedDistinct(st.recs, p, r, t);
  }

  lemma InsertedMost(s: seq<Rec>, p: nat, r: Rec, t: seq<Rec>, xid: nat)
    requires IsInserted(s, p, r, t) && r.xid <= xid && forall i :: 0 <= i < |s| ==> s[i].xid <= xid
    ensures forall i :: 0 <= i < |t| ==> t[i].xid <= xid
  {
  }

  /** A record that no snapshot needs is updated in place. */
  lemma ReplacedValid(st: State, i: nat, r: Rec)
    requires st.Valid() && i < |st.recs| && r.oid == st.recs[i].oid && r.xid == st.xid
    requires i == FloorRec(st.recs, r.oid, st.xid)
    requires forall k :: 0 <= k < |st.recs| && k != i ==> st.recs[k].bno != r.bno
    ensures st.(recs := st.recs[i := r]).Valid()
  {}

  lemma ReplacedMembers(s: seq<Rec>, i: nat, r: Rec, q: Rec)
    requires Sorted(s) && i < |s|
    ensures q in s[i := r] <==> q == r || (q in s && q != s[i])
  {
    var t := s[i := r];
    assert t[i] == r;
    if q in s && q != s[i] {
      var k :| 0 <= k < |s| && s[k] == q;
      assert t[k] == q;
    }
  }

  lemma RemovedMembers(s: seq<Rec>, i: nat, q: Rec)
    requires Sorted(s) && i < |s|
    ensures Sorted(s[..i] + s[i + 1..]) && (q in s[..i] + s[i + 1..] <==> q in s && q != s[i])
  {
    var t := s[..i] + s[i + 1..];
    assert forall k :: 0 <= k < |t| ==> t[k] == s[if k < i then k else k + 1];
    if q in s && q != s[i] {
      var k :| 0 <= k < |s| && s[k] == q;
      assert t[if k < i then k else k - 1] == q;
    }
  }

  /** The membership view of a write lookup. */
  lemma WriteMembers(st: State, oid: nat, newBno: nat, q: Rec)
    requires st.Valid() && st.Mapped(oid) && st.FreshBlock(newBno)
    ensures var prev := st.recs[st.Found(oid)];
            q in st.Write(oid, newBno).recs <==>
            q == Rec(oid, st.xid, st.WriteBlock(oid, newBno)) ||
              (q in st.recs && (q != prev || prev.xid <= st.latestSnap))
  {
    var i := st.Found(oid);
    var r := Rec(oid, st.xid, st.WriteBlock(oid, newBno));
    if st.recs[i].xid <= st.latestSnap {
      InsertedMembers(st.recs, i + 1, r, st.Write(oid, newBno).recs, q);
    } else {
      ReplacedMembers(st.recs, i, r, q);
    }
  }

  lemma WriteValid(st: State, oid: nat, newBno: nat)
    requires st.Valid() && st.Mapped(oid) && st.FreshBlock(newBno)
    ensures st.Write(oid, newBno).Valid()
  {
    var i := st.Found(oid);
    var r := Rec(oid, st.xid, st.WriteBlock(oid, newBno));
    if st.recs[i].xid <= st.latestSnap {
      assert forall k :: i < k < |st.recs| ==> !KeyLeq(st.recs[k], oid, st.xid);
      InsertedValid(st, r, st.Write(oid, newBno).recs);
    } else {
      ReplacedValid(st, i, r);
    }
  }

  /** A write lookup gives the object a block for the current transaction, which no
      snapshot can see, and changes nothing else for anyone. */
  lemma WriteIsolates(st: State, oid: nat, newBno: nat)
    requires st.Valid() && st.Mapped(oid) && st.FreshBlock(newBno)
    ensures st.Write(oid, newBno).Valid() && Isolated(st, st.Write(oid, newBno))
    ensures LookupAt(st.Write(oid, newBno).recs, oid, st.xid) == Some(st.WriteBlock(oid, newBno))
    ensures forall other: nat :: other != oid ==>
              LookupAt(st.Write(oid, newBno).recs, other, st.xid) == LookupAt(st.recs, other, st.xid)
    ensures forall o: nat, x: nat :: x <= st.latestSnap ==> LookupAt(st.recs, o, x) != Some(st.WriteBlock(oid, newBno))
  {
    hide FloorRec, Newest;
    WriteValid(st, oid, newBno);
    var t := st.Write(oid, newBno);
    var r := Rec(oid, st.xid, st.WriteBlock(oid, newBno));
    forall q: Rec
      ensures q.xid <= st.latestSnap || q.oid != oid ==> (q in st.recs <==> q in t.recs)
    {
      WriteMembers(st, oid, newBno, q);
    }
    forall o: nat, x: nat | x <= st.latestSnap || o != oid ensures LookupAt(t.recs, o, x) == LookupAt(st.recs, o, x) {
      SameBelow(st.recs, t.recs, o, x);
    }
    WriteMembers(st, oid, newBno, r);
    CurrentNewest(t, r);
    forall o: nat, x: nat | x <= st.latestSnap ensures LookupAt(st.recs, o, x) != Some(r.bno) {
      NotInSnapshot(t, r, o, x);
    }
  }

  lemma CurrentNewest(st: State, r: Rec)
    requires st.Valid() && r in st.recs && r.xid == st.xid
    ensures LookupAt(st.recs, r.oid, st.xid) == Some(r.bno)
  {
    LookupIsNewest(st.recs, r.oid, st.xid);
    assert Newest(st.recs, r.oid, st.xid, r);
  }

  lemma NotInSnapshot(st: State, r: Rec, oid: nat, x: nat)
    requires st.Valid() && r in st.recs && r.xid == st.xid && x <= st.latestSnap
    ensures LookupAt(st.recs, oid, x) != Some(r.bno)
  {
    LookupIsNewest(st.recs, oid, x);
    var k :| 0 <= k < |st.recs| && st.recs[k] == r;
  }

  /** A new object is visible at once, and to no snapshot. */
  lemma CreateIsolates(st: State, oid: nat, bno: nat)
    requires st.Valid() && !st.Mapped(oid) && st.FreshBlock(bno)
    ensures st.Create(oid, bno).Valid() && Isolated(st, st.Create(oid, bno))
    ensures LookupAt(st.Create(oid, bno).recs, oid, st.xid) == Some(bno)
    ensures forall other: nat :: other != oid ==>
              LookupAt(st.Create(oid, bno).recs, other, st.xid) == LookupAt(st.recs, other, st.xid)
  {
    var t, r := st.Create(oid, bno), Rec(oid, st.xid, bno);
    LookupIsNewest(st.recs, oid, st.xid);
    InsertedValid(st, r, t.recs);
    forall q: Rec ensures q in t.recs <==> q in st.recs || q == r {
      InsertedMembers(st.recs, FloorRec(st.recs, oid, st.xid) + 1, r, t.recs, q);
    }
    CurrentNewest(t, r);
    forall o: nat, x: nat | x <= st.latestSnap || o != oid ensures LookupAt(t.recs, o, x) == LookupAt(st.recs, o, x) {
      SameBelow(st.recs, t.recs, o, x);
    }
  }

  lemma RemovedValid(st: State, i: nat, t: State)
    requires st.Valid() && i < |st.recs| && t == st.(recs := st.recs[..i] + st.recs[i + 1..])
    ensures t.Valid()
  {
    assert forall k :: 0 <= k < |t.recs| ==> t.recs[k] == st.recs[if k < i then k else k + 1];
  }

  lemma DeleteValid(st: State, oid: nat)
    requires st.Valid() && st.Finds(oid)
    ensures st.Delete(oid).Valid()
  {
    RemovedValid(st, st.Found(oid), st.Delete(oid));
  }

  /** Deleting an object is invisible to the snapshots exactly when none of them has
      its current version. */
  lemma DeleteIsolates(st: State, oid: nat)
    requires st.Valid() && st.Mapped(oid)
    ensures st.Delete(oid).Valid()
    ensures Isolated(st, st.Delete(oid)) <==> st.recs[st.Found(oid)].xid > st.latestSnap
    ensures forall other: nat :: other != oid ==>
              LookupAt(st.Delete(oid).recs, other, st.xid) == LookupAt(st.recs, other, st.xid)
  {
    DeleteValid(st, oid);
    var t, prev := st.Delete(oid), st.recs[st.Found(oid)];
    forall q: Rec ensures q in t.recs <==> q in st.recs && q != prev { RemovedMembers(st.recs, st.Found(oid), q); }
    forall o: nat, x: nat | (x <= st.latestSnap && prev.xid > st.latestSnap) || o != oid
      ensures LookupAt(t.recs, o, x) == LookupAt(st.recs, o, x)
    {
      SameBelow(st.recs, t.recs, o, x);
    }
    if prev.xid <= st.latestSnap { DeletedFromSnapshot(st, oid); }
  }

  lemma DeletedFromSnapshot(st: State, oid: nat)
    requires st.Valid() && st.Mapped(oid) && st.recs[st.Found(oid)].xid <= st.latestSnap
    ensures Sorted(st.Delete(oid).recs)
    ensures LookupAt(st.Delete(oid).recs, oid, st.latestSnap) != LookupAt(st.recs, oid, st.latestSnap)
  {
    DeleteValid(st, oid);
    var t, i := st.Delete(oid), st.Found(oid);
    hide LookupAt;
    LookupIsNewest(st.recs, oid, st.latestSnap);
    assert Newest(st.recs, oid, st.latestSnap, st.recs[i]);
    LookupIsNewest(t.recs, oid, st.latestSnap);
    forall q | q in t.recs ensures q.bno != st.recs[i].bno { RemovedMembers(st.recs, i, q); }
  }

  lemma FloorMapped(st: State, oid: nat)
    requires st.Valid()
    ensures FloorRec(st.recs, oid, st.xid) == -1 ==> !st.Mapped(oid)
  {}

  lemma LaterLookup(st: State, oid: nat, x: nat)
    requires st.Valid() && x >= st.xid
    ensures LookupAt(st.recs, oid, x) == LookupAt(st.recs, oid, st.xid)
  {
    LookupIsNewest(st.recs, oid, x);
    LookupIsNewest(st.recs, oid, st.xid);
  }

  // Whole runs

  datatype Step = Write(oid: nat, bno: nat) | Create(oid: nat, bno: nat) | Delete(oid: nat) | Snapshot | Commit

  /** Deleted objects must have been copied since the last snapshot. */
  ghost predicate Allowed(st: State, step: Step)
    requires st.Valid()
  {
    match step
    case Write(oid, bno) => st.Mapped(oid) && st.FreshBlock(bno)
    case Create(oid, bno) => !st.Mapped(oid) && st.FreshBlock(bno)
    case Delete(oid) => st.Mapped(oid) && st.recs[st.Found(oid)].xid > st.latestSnap
    case Snapshot => true
    case Commit => true
  }

  ghost function Apply(st: State, step: Step): (t: State)
    requires st.Valid() && Allowed(st, step)
    ensures t.Valid() && Isolated(st, t) && st.latestSnap <= t.latestSnap && st.xid <= t.xid
  {
    match step
    case Write(oid, bno) => WriteIsolates(st, oid, bno); st.Write(oid, bno)
    case Create(oid, bno) => CreateIsolates(st, oid, bno); st.Create(oid, bno)
    case Delete(oid) => DeleteIsolates(st, oid); st.Delete(oid)
    case Snapshot => st.TakeSnapshot()
    case Commit => st.NextTransaction()
  }

  ghost predicate IsRun(sts: seq<State>, steps: seq<Step>) {
    && |sts| == |steps| + 1 && sts[0].Valid()
    && forall i :: 0 <= i < |steps| ==>
      sts[i].Valid() && Allowed(sts[i], steps[i]) && sts[i + 1] == Apply(sts[i], steps[i])
  }

  /** Snapshot isolation: nothing that happens later changes what a snapshot maps. */
  lemma {:induction false} RunIsolates(sts: seq<State>, steps: seq<Step>, oid: nat, x: nat)
    requires IsRun(sts, steps) && x <= sts[0].latestSnap
    ensures sts[|steps|].Valid() && x <= sts[|steps|].latestSnap
    ensures LookupAt(sts[|steps|].recs, oid, x) == LookupAt(sts[0].recs, oid, x)
  {
    if steps != [] {
      var n := |steps| - 1;
      RunIsolates(sts[..n + 1], steps[..n], oid, x);
      assert sts[n + 1] == Apply(sts[n], steps[n]) && Isolated(sts[n], sts[n + 1]);
    }
  }

  /** No object has two versions that are both newer than the last snapshot. */
  ghost predicate Tidy(st: State) {
    forall q, r :: q in st.recs && r in st.recs && NewerPair(st, q, r) ==> q == r
  }

  ghost predicate NewerPair(st: State, q: Rec, r: Rec) {
    q.oid == r.oid && q.xid > st.latestSnap && r.xid > st.latestSnap
  }

  lemma WriteTidy(st: State, oid: nat, bno: nat)
    requires st.Valid() && Tidy(st) && st.Mapped(oid) && st.FreshBlock(bno)
    ensures Tidy(st.Write(oid, bno))
  {
    hide Sorted;
    var t, was, now := st.Write(oid, bno), st.recs[st.Found(oid)], Rec(oid, st.xid, st.WriteBlock(oid, bno));
    forall q, r | q in t.recs && r in t.recs && NewerPair(t, q, r)
      ensures q == r
    {
      WriteMembers(st, oid, bno, q);
      WriteMembers(st, oid, bno, r);
      if q == now && r != now { OldVersion(st, oid, r); }
      if r == now && q != now { OldVersion(st, oid, q); }
    }
  }

  /** Any version that a write leaves is in the last snapshot. */
  lemma OldVersion(st: State, oid: nat, q: Rec)
    requires st.Valid() && Tidy(st) && st.Mapped(oid) && q in st.recs && q.oid == oid
    ensures q == st.recs[st.Found(oid)] || q.xid <= st.latestSnap
  {
    LookupIsNewest(st.recs, oid, st.xid);
    assert q.xid > st.latestSnap ==> NewerPair(st, q, st.recs[st.Found(oid)]);
  }

  lemma StepTidy(st: State, step: Step)
    requires st.Valid() && Tidy(st) && Allowed(st, step)
    ensures Tidy(Apply(st, step))
  {
    hide LookupAt, Sorted, FloorRec;
    var t := Apply(st, step);
    match step
    case Write(oid, bno) => WriteTidy(st, oid, bno);
    case Create(oid, bno) =>
      forall q | q in t.recs
        ensures q == Rec(oid, st.xid, bno) || (q in st.recs && q.oid != oid)
      {
        CreateMembers(st, oid, bno, q);
      }
      assert forall q, r :: q in st.recs && r in st.recs && NewerPair(t, q, r) ==> NewerPair(st, q, r);
    case Delete(oid) =>
      forall q | q in t.recs
        ensures q in st.recs
      {
        RemovedMembers(st.recs, st.Found(oid), q);
      }
      assert forall q, r :: NewerPair(t, q, r) ==> NewerPair(st, q, r);
    case Snapshot =>
    case Commit =>
      assert forall q, r :: NewerPair(t, q, r) ==> NewerPair(st, q, r);
  }

  lemma CreateMembers(st: State, oid: nat, bno: nat, q: Rec)
    requires st.Valid() && !st.Mapped(oid) && q in st.Create(oid, bno).recs
    ensures q == Rec(oid, st.xid, bno) || (q in st.recs && q.oid != oid)
  {
    LookupIsNewest(st.recs, oid, st.xid);
    InsertedMembers(st.recs, FloorRec(st.recs, oid, st.xid) + 1, Rec(oid, st.xid, bno), st.Create(oid, bno).recs, q);
  }

  /** Only snapshots make the map keep old versions: in a run there is never more than one for
      each object that the last snapshot does not have. */
  lemma {:induction false} RunTidy(sts: seq<State>, steps: seq<Step>)
    requires IsRun(sts, steps) && Tidy(sts[0])
    ensures Tidy(sts[|steps|])
  {
    if steps != [] {
      var n := |steps| - 1;
      RunTidy(sts[..n + 1], steps[..n]);
      assert sts[n + 1] == Apply(sts[n], steps[n]);
      StepTidy(sts[n], steps[n]);
    }
  }

  /** So each snapshot that is taken in a run maps to the end what was mapped when it was
      taken. */
  lemma SnapshotStays(sts: seq<State>, steps: seq<Step>, i: nat, oid: nat)
    requires IsRun(sts, steps) && i < |steps| && steps[i].Snapshot?
    ensures sts[i].Valid() && sts[|steps|].Valid() && sts[i].xid <= sts[|steps|].latestSnap
    ensures LookupAt(sts[|steps|].recs, oid, sts[i].xid) == LookupAt(sts[i].recs, oid, sts[i].xid)
  {
    hide LookupAt;
    assert sts[i + 1] == Apply(sts[i], steps[i]);
    LastState(sts, steps);
    var rest, left := sts[i + 1..], steps[i + 1..];
    forall k | 0 <= k < |left|
      ensures rest[k].Valid() && Allowed(rest[k], left[k]) && rest[k + 1] == Apply(rest[k], left[k])
    {
      assert sts[i + 1 + k].Valid() && Allowed(sts[i + 1 + k], steps[i + 1 + k]);
      assert sts[i + 1 + k + 1] == Apply(sts[i + 1 + k], steps[i + 1 + k]);
    }
    RunIsolates(rest, left, oid, sts[i].xid);
  }

  lemma LastState(sts: seq<State>, steps: seq<Step>)
    requires IsRun(sts, steps)
    ensures forall i :: 0 <= i < |sts| ==> sts[i].Valid()
  {
    hide State.Valid;
    forall i | 0 <= i < |sts|
      ensures sts[i].Valid()
    {
      if i > 0 { assert sts[i - 1 + 1] == Apply(sts[i - 1], steps[i - 1]); }
    }
  }

  /** What a write lookup hands out: never a block of an older transaction, and always the
      same one until the next commit. */
  lemma WriteBlockIs(st: State, oid: nat, a: nat, b: nat)
    requires st.Valid() && st.Mapped(oid) && st.FreshBlock(a)
    ensures forall r :: r in st.recs && r.xid < st.xid ==> r.bno != st.WriteBlock(oid, a)
    ensures LookupAt(st.recs, oid, st.xid) == Some(st.WriteBlock(oid, a)) || st.WriteBlock(oid, a) == a
    ensures var t := st.Write(oid, a); t.Valid() && t.Mapped(oid) && t.WriteBlock(oid, b) == st.WriteBlock(oid, a)
  {
    hide Sorted, LookupAt, FloorRec;
    WriteIsolates(st, oid, a);
    LookupIsFound(st, oid);
    var t := st.Write(oid, a);
    LookupIsFound(t, oid);
    var n := Rec(oid, st.xid, st.WriteBlock(oid, a));
    var i := st.Found(oid);
    var k := if st.recs[i].xid <= st.latestSnap then i + 1 else i;
    assert t.recs[k] == n;
    assert t.Found(oid) == k;
  }

  /** A new object belongs to its transaction, so it is not copied again. */
  lemma CreatedInPlace(st: State, oid: nat, bno: nat, b: nat)
    requires st.Valid() && !st.Mapped(oid) && st.FreshBlock(bno)
    ensures var t := st.Create(oid, bno);
      t.Valid() && t.Mapped(oid) && t.WriteBlock(oid, b) == bno && t.recs[t.Found(oid)] == Rec(oid, st.xid, bno)
  {
    hide Sorted, LookupAt, FloorRec;
    CreateIsolates(st, oid, bno);
    var t, p := st.Create(oid, bno), FloorRec(st.recs, oid, st.xid) + 1;
    LookupIsFound(t, oid);
    assert t.recs[p] == Rec(oid, st.xid, bno);
    assert t.Found(oid) == p;
  }

  lemma SameKey(s: seq<Rec>, q: Rec, r: Rec)
    requires Sorted(s) && q in s && r in s && q.oid == r.oid && q.xid == r.xid
    ensures q == r
  {
    var i :| 0 <= i < |s| && s[i] == q;
    var j :| 0 <= j < |s| && s[j] == r;
    assert i == j;
  }

  /** What an object was mapped to before some transaction. */
  function LookupBefore(s: seq<Rec>, oid: nat, xid: nat): Option<nat>
    requires Sorted(s)
  {
    if xid == 0 then None else LookupAt(s, oid, xid - 1)
  }

  /** Without the newest version, a lookup gives the one before. */
  lemma WithoutNewest(s: seq<Rec>, t: seq<Rec>, oid: nat, xid: nat, r: Rec)
    requires Sorted(s) && Sorted(t) && r in s && r.oid == oid && r.xid <= xid
    requires forall q :: q in s && q.oid == oid && q.xid <= xid ==> q.xid <= r.xid
    requires forall q :: q in t <==> q in s && q != r
    ensures LookupAt(t, oid, xid) == LookupBefore(s, oid, r.xid)
  {
    hide LookupAt, FloorRec, Sorted;
    forall q | q in t && q.oid == oid && q.xid <= xid
      ensures q.xid <= r.xid - 1
    {
      if q.xid == r.xid { SameKey(s, q, r); }
    }
    LookupIsNewest(t, oid, xid);
    if r.xid > 0 { LookupIsNewest(s, oid, r.xid - 1); }
    if LookupAt(t, oid, xid).Some? {
      assert Newest(s, oid, r.xid - 1, t[FloorRec(t, oid, xid)]);
    }
  }

  /** An object that is deleted is mapped as it was before its last version. */
  lemma DeletedShows(st: State, oid: nat)
    requires st.Valid() && st.Mapped(oid)
    ensures st.Delete(oid).Valid()
    ensures LookupAt(st.Delete(oid).recs, oid, st.xid) == LookupBefore(st.recs, oid, st.recs[st.Found(oid)].xid)
  {
    hide LookupAt, Sorted, Isolated;
    DeleteIsolates(st, oid);
    var t, i := st.Delete(oid), st.Found(oid);
    forall q: Rec
      ensures q in t.recs <==> q in st.recs && q != st.recs[i]
    {
      RemovedMembers(st.recs, i, q);
    }
    LookupIsNewest(st.recs, oid, st.xid);
    LookupIsFound(st, oid);
    WithoutNewest(st.recs, t.recs, oid, st.xid, st.recs[i]);
  }

  /** The live map is a plain one: each step changes what it is about, for that object, and
      snapshots and commits change nothing. */
  lemma StepPlain(st: State, step: Step, oid: nat)
    requires st.Valid() && Allowed(st, step)
    ensures var was, t := LookupAt(st.recs, oid, st.xid), Apply(st, step);
      var now := LookupAt(t.recs, oid, t.xid);
      match step
      case Write(o, bno) => if o == oid then now == Some(st.WriteBlock(o, bno)) else now == was
      case Create(o, bno) => if o == oid then now == Some(bno) else now == was
      case Delete(o) =>
        if o == oid then now == LookupBefore(st.recs, oid, st.recs[st.Found(oid)].xid) else now == was
      case Snapshot => now == was && t.xid > st.xid
      case Commit => now == was && t.xid > st.xid
  {
    hide LookupAt;
    match step
    case Write(o, bno) => WriteIsolates(st, o, bno);
    case Create(o, bno) => CreateIsolates(st, o, bno);
    case Delete(o) => DeleteIsolates(st, o); DeletedShows(st, o);
    case Snapshot => LaterLookup(st, oid, st.xid + 1);
    case Commit => LaterLookup(st, oid, st.xid + 1);
  }

  // The object map in memory

  const CACHE_SLOTS: nat := 128

  datatype CacheRec = CacheRec(oid: nat, bno: nat)

  class Omap {
    var recs: seq<Rec>
    var latestSnap: nat   // omap_latest_snap
    var xid: nat          // nx_xid
    const cache: array<CacheRec>

    ghost function St(): State reads this { State(recs, latestSnap, xid) }

    /** Cached blocks are what the tree says for the current transaction. */
    ghost predicate Valid()
      reads this, cache
    {
      && St().Valid() && cache.Length == CACHE_SLOTS
      && forall j :: 0 <= j < CACHE_SLOTS && cache[j].oid != 0 ==>
           cache[j].oid % CACHE_SLOTS == j && LookupAt(recs, cache[j].oid, xid) == Some(cache[j].bno)
    }

    constructor (recs: seq<Rec>, latestSnap: nat, xid: nat)
      requires State(recs, latestSnap, xid).Valid()
      ensures Valid() && St() == State(recs, latestSnap, xid) && fresh(cache)
    {
      this.recs, this.latestSnap, this.xid := recs, latestSnap, xid;
      cache := new CacheRec[CACHE_SLOTS](_ => CacheRec(0, 0));
    }

    /** Every slot but the one of `oid` is as in `was`. */
    ghost predicate OthersKept(oid: nat, was: seq<CacheRec>)
      reads cache
    {
      && |was| == cache.Length == CACHE_SLOTS
      && forall j :: 0 <= j < CACHE_SLOTS && j != oid % CACHE_SLOTS ==> cache[j] == was[j]
    }

    /** apfs_omap_cache_save() */
    method CacheSave(oid: nat, bno: nat)
      requires cache.Length == CACHE_SLOTS
      modifies cache
      ensures cache[oid % CACHE_SLOTS] == CacheRec(oid, bno)
      ensures forall j :: 0 <= j < CACHE_SLOTS && j != oid % CACHE_SLOTS ==> cache[j] == old(cache[j])
    {
      cache[oid % CACHE_SLOTS] := CacheRec(oid, bno);
    }

    /** apfs_omap_lookup_block() without write access. The answer is the object's block
        exactly when the object is mapped, or when no key is below it. Otherwise it is the
        block of another object, and it goes to the cache. */
    method Lookup(oid: nat) returns (bno: Option<nat>)
      requires Valid()
      modifies cache
      ensures bno == LookupAt(recs, oid, xid) <==> St().Mapped(oid) || !St().Finds(oid)
      ensures St().Mapped(oid) || !St().Finds(oid) ==> Valid()
      ensures St().Finds(oid) ==> bno == Some(recs[St().Found(oid)].bno)
      ensures St().Finds(oid) ==> cache[oid % CACHE_SLOTS] == CacheRec(oid, bno.value)
      ensures OthersKept(oid, old(cache[..])) && (!St().Finds(oid) ==> cache[..] == old(cache[..]))
    {
      LookupIsFound(St(), oid);
      var slot := oid % CACHE_SLOTS;
      if oid != 0 && cache[slot].oid == oid {
        return Some(cache[slot].bno);
      }
      var i := FloorRec(recs, oid, xid);
      if i == -1 {
        return None;
      }
      bno := Some(recs[i].bno);
      CacheSave(oid, recs[i].bno);
    }

    /** apfs_omap_lookup_block() with write access; `newBno` is the block that the
        copy-on-write of the object would allocate. The record that the query finds is the
        one that changes, whatever its object. */
    method LookupForWrite(oid: nat, newBno: nat) returns (bno: Option<nat>)
      requires Valid() && St().FreshBlock(newBno)
      modifies this`recs, cache
      ensures bno.Some? <==> old(St()).Finds(oid)
      ensures bno.Some? ==> St() == old(St()).Write(oid, newBno) && bno.value == old(St()).WriteBlock(oid, newBno)
      ensures bno.None? ==> St() == old(St()) && cache[..] == old(cache[..])
      ensures bno.Some? ==> cache[oid % CACHE_SLOTS] == CacheRec(oid, bno.value)
      ensures OthersKept(oid, old(cache[..]))
      ensures old(St().Mapped(oid) || !St().Finds(oid)) ==> Valid()
    {
      hide Sorted, LookupAt;
      ghost var mapped := St().Mapped(oid);
      var i := FloorRec(recs, oid, xid);
      if i == -1 {
        FloorMapped(St(), oid);
        return None;
      }
      if mapped { WriteIsolates(St(), oid, newBno); }
      var preserve := recs[i].xid <= latestSnap;
      var block := if recs[i].xid == xid then recs[i].bno else newBno;
      if preserve {
        recs := recs[..i + 1] + [Rec(oid, xid, block)] + recs[i + 1..];
      } else {
        recs := recs[i := Rec(oid, xid, block)];
      }
      CacheSave(oid, block);
      bno := Some(block);
    }

    /** apfs_create_omap_rec() */
    method CreateRec(oid: nat, bno: nat)
      requires Valid() && !St().Mapped(oid) && St().FreshBlock(bno)
      modifies this`recs, cache
      ensures Valid() && St() == old(St()).Create(oid, bno)
      ensures cache[oid % CACHE_SLOTS] == CacheRec(oid, bno) && OthersKept(oid, old(cache[..]))
    {
      CreateIsolates(St(), oid, bno);
      var p := FloorRec(recs, oid, xid) + 1;
      recs := recs[..p] + [Rec(oid, xid, bno)] + recs[p..];
      CacheSave(oid, bno);
    }

    /** apfs_delete_omap_rec(), for whatever record the query finds. */
    method DeleteRec(oid: nat) returns (found: bool)
      requires Valid()
      modifies this`recs, cache
      ensures found <==> old(St()).Finds(oid)
      ensures St() == if found then old(St()).Delete(oid) else old(St())
      ensures var was := old(cache[..]);
              OthersKept(oid, was) && cache[oid % CACHE_SLOTS] ==
                if found && was[oid % CACHE_SLOTS].oid == oid then CacheRec(0, 0) else was[oid % CACHE_SLOTS]
      ensures old(St().Mapped(oid) || !St().Finds(oid)) ==> Valid()
    {
      hide Sorted, LookupAt;
      ghost var mapped := St().Mapped(oid);
      var i := FloorRec(recs, oid, xid);
      found := i >= 0;
      if !found {
        return;
      }
      if mapped { DeleteIsolates(St(), oid); }
      recs := recs[..i] + recs[i + 1..];
      if cache[oid % CACHE_SLOTS].oid == oid {
        cache[oid % CACHE_SLOTS] := CacheRec(0, 0);
      }
    }

    /** apfs_do_ioc_take_snapshot(), as far as the map goes, and its forced commit. */
    method TakeSnapshot()
      requires Valid()
      modifies this`latestSnap, this`xid
      ensures Valid() && St() == old(St()).TakeSnapshot()
      ensures latestSnap == old(xid) && xid > latestSnap && recs == old(recs)
    {
      forall oid: nat
        ensures LookupAt(recs, oid, xid + 1) == LookupAt(recs, oid, xid)
      {
        LaterLookup(St(), oid, xid + 1);
      }
      latestSnap := xid;
      xid := xid + 1;
    }

    /** The start of the next transaction. */
    method NextTransaction()
      requires Valid()
      modifies this`xid
      ensures Valid() && St() == old(St()).NextTransaction()
      ensures latestSnap == old(latestSnap) && xid > old(xid) && recs == old(recs)
    {
      forall oid: nat
        ensures LookupAt(recs, oid, xid + 1) == LookupAt(recs, oid, xid)
      {
        LaterLookup(St(), oid, xid + 1);
      }
      xid := xid + 1;
    }
  }

  /** An object that only a snapshot still needs is lost to it when deleted. */
  lemma DeleteBreaksSnapshot()
    ensures var st := State([Rec(5, 1, 100)], 2, 3);
            st.Valid() && st.Mapped(5) && st.Delete(5).Valid() && LookupAt(st.recs, 5, 2) == Some(100) &&
              LookupAt(st.Delete(5).recs, 5, 2) == None
  {
    var st := State([Rec(5, 1, 100)], 2, 3);
    DeleteIsolates(st, 5);
    assert st.Delete(5).recs == [];
  }

  // Objects that are not mapped

  lemma LookupIsFound(st: State, oid: nat)
    requires st.Valid()
    ensures st.Mapped(oid) ==> st.Finds(oid) && LookupAt(st.recs, oid, st.xid) == Some(st.recs[st.Found(oid)].bno)
    ensures !st.Mapped(oid) ==> LookupAt(st.recs, oid, st.xid) == None
  {
  }

  /** The record found is the newest of its own object. */
  lemma FoundNewest(st: State, oid: nat)
    requires st.Valid() && st.Finds(oid)
    ensures var r := st.recs[st.Found(oid)]; LookupAt(st.recs, r.oid, st.xid) == Some(r.bno) && r in st.recs
  {
    hide LookupAt;
    var i := st.Found(oid);
    var r := st.recs[i];
    assert KeyLeq(r, oid, st.xid);
    forall q | q in st.recs && q.oid == r.oid && q.xid <= st.xid
      ensures q.xid <= r.xid
    {
      var k :| 0 <= k < |st.recs| && st.recs[k] == q;
      assert KeyLeq(q, oid, st.xid);
      if k < i { InOrder(st.recs, k, i); }
    }
    LookupIsNewest(st.recs, r.oid, st.xid);
    assert Newest(st.recs, r.oid, st.xid, r);
  }

  lemma OtherBlock(st: State, i: nat, j: nat)
    requires st.Valid() && i < |st.recs| && j < |st.recs| && i != j
    ensures st.recs[i].bno != st.recs[j].bno
  {
    hide Sorted;
  }

  /** Without the record found, its object is mapped to some other block, or not at all. */
  lemma LostRecord(st: State, oid: nat, t: seq<Rec>, other: nat)
    requires st.Valid() && st.Finds(oid) && Sorted(t) && other == st.recs[st.Found(oid)].oid
    requires forall q :: q in t && q.oid == other ==> q in st.recs && q != st.recs[st.Found(oid)]
    ensures LookupAt(t, other, st.xid) != LookupAt(st.recs, other, st.xid)
  {
    hide LookupAt, FloorRec;
    FoundNewest(st, oid);
    LookupIsNewest(t, other, st.xid);
    if LookupAt(t, other, st.xid).Some? {
      var q := t[FloorRec(t, other, st.xid)];
      assert Newest(t, other, st.xid, q);
      assert q in st.recs;
      var k :| 0 <= k < |st.recs| && st.recs[k] == q;
      var i := st.Found(oid);
      OtherBlock(st, k, i);
    }
  }

  /** A write lookup of an object that is not mapped gives it the contents of another. That
      one keeps its own record exactly when a snapshot has it. */
  lemma WriteSteals(st: State, oid: nat, newBno: nat)
    requires st.Valid() && st.Finds(oid) && !st.Mapped(oid) && st.FreshBlock(newBno)
    ensures var t, r := st.Write(oid, newBno), st.recs[st.Found(oid)];
      && t.Valid() && r.oid != oid && LookupAt(t.recs, oid, st.xid) == Some(st.WriteBlock(oid, newBno))
      && (LookupAt(t.recs, r.oid, st.xid) == LookupAt(st.recs, r.oid, st.xid) <==> r.xid <= st.latestSnap)
  {
    hide LookupAt, FloorRec;
    var t, i := st.Write(oid, newBno), st.Found(oid);
    var r, n := st.recs[i], Rec(oid, st.xid, st.WriteBlock(oid, newBno));
    StealValid(st, oid, newBno);
    forall q: Rec
      ensures q in t.recs <==> q == n || (q in st.recs && (r.xid <= st.latestSnap || q != r))
    {
      if r.xid <= st.latestSnap {
        InsertedMembers(st.recs, i + 1, n, t.recs, q);
      } else {
        ReplacedMembers(st.recs, i, n, q);
      }
    }
    CurrentNewest(t, n);
    if r.xid <= st.latestSnap {
      SameBelow(st.recs, t.recs, r.oid, st.xid);
    } else {
      LostRecord(st, oid, t.recs, r.oid);
    }
  }

  lemma StealValid(st: State, oid: nat, newBno: nat)
    requires st.Valid() && st.Finds(oid) && !st.Mapped(oid) && st.FreshBlock(newBno)
    ensures st.Write(oid, newBno).Valid()
  {
    var i := st.Found(oid);
    var n := Rec(oid, st.xid, st.WriteBlock(oid, newBno));
    LookupIsNewest(st.recs, oid, st.xid);
    if st.recs[i].xid <= st.latestSnap {
      InsertedValid(st, n, st.Write(oid, newBno).recs);
    }
  }

  /** Deleting an object that is not mapped deletes another one. */
  lemma DeleteSteals(st: State, oid: nat)
    requires st.Valid() && st.Finds(oid) && !st.Mapped(oid)
    ensures var t, r := st.Delete(oid), st.recs[st.Found(oid)];
      && t.Valid() && r.oid != oid && LookupAt(t.recs, r.oid, st.xid) != LookupAt(st.recs, r.oid, st.xid)
  {
    hide LookupAt, FloorRec;
    var t, i := st.Delete(oid), st.Found(oid);
    RemovedValid(st, i, t);
    forall q: Rec
      ensures q in t.recs <==> q in st.recs && q != st.recs[i]
    {
      RemovedMembers(st.recs, i, q);
    }
    LostRecord(st, oid, t.recs, st.recs[i].oid);
  }

  /** A map with only object 5, which is asked for object 7. */
  method LookupOther() returns (bno: Option<nat>)
    ensures State([Rec(5, 1, 100)], 0, 2).Valid() && LookupAt([Rec(5, 1, 100)], 7, 2) == None && bno == Some(100)
  {
    var recs := [Rec(5, 1, 100)];
    assert recs[..0] == [];
    assert FloorRec(recs, 7, 2) == 0;
    var omap := new Omap(recs, 0, 2);
    bno := omap.Lookup(7);
  }
}
