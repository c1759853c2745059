/** The locations of the internal-pool bitmaps (spaceman.c). The free locations form a
    linked list kept in an array: the next location after each of them. A dirty bitmap is
    written to the location at the head, and its old location goes to the tail. */
module IpBitmaps {

  const INDEX_INVALID: nat := 0xFFFF

  datatype Status = Ok | Corrupted

  ghost predicate Distinct(s: seq<nat>) {
    forall i, j :: 0 <= i < j < |s| ==> s[i] != s[j]
  }

  ghost predicate Below(s: seq<nat>, n: nat) {
    forall i :: 0 <= i < |s| ==> s[i] < n
  }

  /** The array links the locations of the queue, in order. */
  ghost predicate Links(next: seq<nat>, q: seq<nat>) {
    && |next| <= INDEX_INVALID && q != [] && Below(q, |next|) && Distinct(q)
    && next[q[|q| - 1]] == INDEX_INVALID && forall i :: 0 <= i < |q| - 1 ==> next[q[i]] == q[i + 1]
  }

  /** Every location is either free or in use, and only once. */
  ghost predicate Partition(q: seq<nat>, slots: seq<nat>, n: nat) {
    Below(q + slots, n) && Distinct(q + slots) && |q| + |slots| == n
  }

  ghost predicate Unlinked(next: seq<nat>, slots: seq<nat>) {
    Below(slots, |next|) && forall i :: 0 <= i < |slots| ==> next[slots[i]] == INDEX_INVALID
  }

  lemma FreeLinks(next: seq<nat>, q: seq<nat>, off: nat)
    requires Links(next, q) && off < |next| && next[off] == INDEX_INVALID && off !in q
    ensures Links(next[q[|q| - 1] := off], q + [off])
  {
    var t, r, n := q[|q| - 1], q + [off], |q|;
    forall i | 0 <= i < n
      ensures next[t := off][r[i]] == r[i + 1]
    {
    }
  }

  lemma AllocLinks(next: seq<nat>, q: seq<nat>)
    requires Links(next, q)
    ensures next[q[0]] == if |q| == 1 then INDEX_INVALID else q[1]
    ensures |q| > 1 ==> Links(next[q[0] := INDEX_INVALID], q[1..])
  {
    var r := q[1..];
    forall i | 0 <= i < |r|
      ensures r[i] == q[i + 1] && r[i] != q[0]
    {
    }
  }

  /** The old locations of the dirty bitmaps among the first n. */
  function Olds(slots: seq<nat>, dirty: seq<bool>, n: nat): (r: seq<nat>)
    requires n <= |slots| == |dirty|
    ensures |r| == DirtyCount(dirty, n)
  {
    if n == 0 then [] else Olds(slots, dirty, n - 1) + if dirty[n - 1] then [slots[n - 1]] else []
  }

  function DirtyCount(dirty: seq<bool>, n: nat): nat
    requires n <= |dirty|
  {
    if n == 0 then 0 else DirtyCount(dirty, n - 1) + if dirty[n - 1] then 1 else 0
  }

  /** Where the bitmaps are after the first n of them have been through a commit: each dirty
      one takes the next location out of the queue, which the old locations join. */
  ghost predicate Rotated(q: seq<nat>, slots: seq<nat>, dirty: seq<bool>, n: nat, q2: seq<nat>, slots2: seq<nat>)
    requires n <= |slots| == |dirty|
  {
    && |slots2| == |slots| && q2 == (q + Olds(slots, dirty, n))[DirtyCount(dirty, n)..]
    && forall i :: 0 <= i < |slots| ==>
      slots2[i] == if i < n && dirty[i] then Taken(q, slots, dirty, n, i) else slots[i]
  }

  function Taken(q: seq<nat>, slots: seq<nat>, dirty: seq<bool>, n: nat, i: nat): nat
    requires i < n <= |slots| == |dirty| && dirty[i]
  {
    DirtyCountGrows(dirty, i + 1, n);
    (q + Olds(slots, dirty, n))[DirtyCount(dirty, i)]
  }

  lemma {:induction false} DirtyCountGrows(dirty: seq<bool>, i: nat, n: nat)
    requires i <= n <= |dirty|
    ensures DirtyCount(dirty, i) <= DirtyCount(dirty, n)
  {
    if i < n { DirtyCountGrows(dirty, i, n - 1); }
  }

  class Ring {
    const next: array<nat>
    var head: nat
    var tail: nat
    var slots: seq<nat>
    ghost var queue: seq<nat>

    ghost predicate Linked()
      reads this, next
    {
      Links(next[..], queue) && head == queue[0] && tail == queue[|queue| - 1]
    }

    ghost predicate Valid()
      reads this, next
    {
      Linked() && Partition(queue, slots, next.Length) && Unlinked(next[..], slots)
    }

    /** Some locations, of which the first ones are in use. */
    constructor (used: nat, total: nat)
      requires used < total <= INDEX_INVALID
      ensures Valid() && |slots| == used && |queue| == total - used && fresh(next) && next.Length == total
      ensures forall i :: 0 <= i < used ==> slots[i] == i
      ensures forall i :: 0 <= i < total - used ==> queue[i] == used + i
    {
      next := new nat[total](i => if used <= i < total - 1 then i + 1 else INDEX_INVALID);
      head, tail := used, total - 1;
      slots := seq(used, i => i);
      queue := seq(total - used, i => used + i);
    }

    /** apfs_free_ip_bitmap() */
    method Free(offset: nat)
      requires Linked() && offset < next.Length && next[offset] == INDEX_INVALID && offset !in queue
      modifies this`tail, this`queue, next
      ensures Linked() && queue == old(queue) + [offset]
      ensures next[..] == old(next[..])[old(tail) := offset]
    {
      FreeLinks(next[..], queue, offset);
      next[tail] := offset;
      tail := offset;
      queue := queue + [offset];
    }

    /** apfs_allocate_ip_bitmap() */
    method Allocate() returns (status: Status, offset: nat)
      requires Linked()
      modifies this`head, this`queue, next
      ensures status == if |old(queue)| == 1 then Corrupted else Ok
      ensures offset == old(queue)[0] && queue == old(queue)[1..]
      ensures status == Ok ==> Linked()
      ensures next[..] == old(next[..])[offset := INDEX_INVALID]
    {
      AllocLinks(next[..], queue);
      status, offset := Ok, head;
      head := next[head];
      next[offset] := INDEX_INVALID;
      queue := queue[1..];
      if head >= next.Length || offset >= next.Length {
        status := Corrupted;
      }
    }

    /** apfs_reallocate_ip_bitmap(): it never fails, because of what it has just freed. */
    method Reallocate(idx: nat) returns (status: Status)
      requires Valid() && idx < |slots|
      modifies this, next
      ensures Valid() && status == Ok
      ensures slots == old(slots)[idx := old(queue)[0]] && queue == old(queue)[1..] + [old(slots)[idx]]
    {
      ghost var q, s, links := queue, slots, next[..];
      Moved(q, s, idx, next.Length);
      StillUnlinked(links, q, s, idx);
      var offset := slots[idx];
      Free(offset);
      status, offset := Allocate();
      slots := slots[idx := offset];
      assert (q + [s[idx]])[1..] == q[1..] + [s[idx]];
    }

    /** apfs_write_ip_bitmaps(). None of the locations of the previous commit is reused
        exactly when no more bitmaps are dirty than there were free locations. */
    method WriteIpBitmaps(dirty: seq<bool>) returns (status: Status)
      requires Valid() && |dirty| == |slots|
      modifies this, next
      ensures Valid() && status == Ok
      ensures Rotated(old(queue), old(slots), dirty, |dirty|, queue, slots)
      ensures DirtyCount(dirty, |dirty|) <= |old(queue)| <==>
        forall i :: 0 <= i < |dirty| && dirty[i] ==> slots[i] !in old(slots)
    {
      hide Partition, Unlinked, Rotated, DirtyCount;
      RotatedNone(queue, slots, dirty);
      status := Ok;
      var i := 0;
      while i < |slots|
        invariant i <= |slots| == |dirty| && Valid() && status == Ok && old(queue) != [] && queue != []
        invariant Rotated(old(queue), old(slots), dirty, i, queue, slots)
      {
        RotateStep(old(queue), old(slots), dirty, i, queue, slots);
        if dirty[i] {
          status := Reallocate(i);
        }
        i := i + 1;
      }
      RotatedReuse(old(queue), old(slots), dirty, queue, slots, next.Length);
    }
  }

  lemma RotatedNone(q: seq<nat>, slots: seq<nat>, dirty: seq<bool>)
    requires |slots| == |dirty|
    ensures Rotated(q, slots, dirty, 0, q, slots)
  {
  }

  /** What was taken out of the queue doesn't depend on what joins it later. */
  lemma TakenSame(q: seq<nat>, slots: seq<nat>, dirty: seq<bool>, n: nat, j: nat)
    requires j < n < |slots| == |dirty| && dirty[j]
    ensures Taken(q, slots, dirty, n + 1, j) == Taken(q, slots, dirty, n, j)
  {
    DirtyCountGrows(dirty, j + 1, n);
  }

  lemma RotateStep(q: seq<nat>, slots: seq<nat>, dirty: seq<bool>, i: nat, q2: seq<nat>, slots2: seq<nat>)
    requires i < |slots| == |dirty| && q != [] && q2 != [] && Rotated(q, slots, dirty, i, q2, slots2)
    ensures slots2[i] == slots[i]
    ensures if dirty[i] then Rotated(q, slots, dirty, i + 1, q2[1..] + [slots2[i]], slots2[i := q2[0]])
            else Rotated(q, slots, dirty, i + 1, q2, slots2)
  {
    var all, d := q + Olds(slots, dirty, i), DirtyCount(dirty, i);
    forall j | 0 <= j < i && dirty[j]
      ensures Taken(q, slots, dirty, i + 1, j) == Taken(q, slots, dirty, i, j)
    {
      TakenSame(q, slots, dirty, i, j);
    }
    if dirty[i] {
      assert q + Olds(slots, dirty, i + 1) == all + [slots[i]];
      assert (all + [slots[i]])[d + 1..] == all[d..][1..] + [slots[i]];
      assert all[d..][0] == all[d];
    }
  }

  lemma NotMoved(q: seq<nat>, slots: seq<nat>, dirty: seq<bool>, q2: seq<nat>, slots2: seq<nat>, i: nat)
    requires |slots| == |dirty| && i < |dirty| && !dirty[i] && Rotated(q, slots, dirty, |dirty|, q2, slots2)
    ensures |slots2| == |slots| && slots2[i] == slots[i]
  {
  }

  lemma RotatedLen(q: seq<nat>, slots: seq<nat>, dirty: seq<bool>, n: nat, q2: seq<nat>, slots2: seq<nat>)
    requires n <= |slots| == |dirty| && Rotated(q, slots, dirty, n, q2, slots2)
    ensures |slots2| == |slots|
  {
  }

  lemma {:induction false} RotatedTo(q: seq<nat>, slots: seq<nat>, dirty: seq<bool>, n: nat, total: nat)
      returns (q2: seq<nat>, slots2: seq<nat>)
    requires n <= |slots| == |dirty| && (slots != [] ==> q != []) && Partition(q, slots, total)
    ensures Rotated(q, slots, dirty, n, q2, slots2) && Partition(q2, slots2, total) && |q2| == |q|
  {
    hide Partition, Rotated, Olds, DirtyCount;
    if n == 0 {
      q2, slots2 := q, slots;
      RotatedNone(q, slots, dirty);
    } else {
      q2, slots2 := RotatedTo(q, slots, dirty, n - 1, total);
      RotateStep(q, slots, dirty, n - 1, q2, slots2);
      assert |slots2| == |slots| by { RotatedLen(q, slots, dirty, n - 1, q2, slots2); }
      if dirty[n - 1] {
        Moved(q2, slots2, n - 1, total);
        q2, slots2 := q2[1..] + [slots2[n - 1]], slots2[n - 1 := q2[0]];
      }
    }
  }

  /** Used and free locations are still a partition after a commit. */
  lemma RotatedPartition(q: seq<nat>, slots: seq<nat>, dirty: seq<bool>, q2: seq<nat>, slots2: seq<nat>, total: nat)
    requires |slots| == |dirty| && (slots != [] ==> q != []) && Partition(q, slots, total)
    requires Rotated(q, slots, dirty, |dirty|, q2, slots2)
    ensures Partition(q2, slots2, total) && |q2| == |q| && |slots2| == |slots|
  {
    hide Partition;
    var q3, slots3 := RotatedTo(q, slots, dirty, |dirty|, total);
    assert slots3 == slots2;
  }

  lemma {:induction false} OldsIn(slots: seq<nat>, dirty: seq<bool>, n: nat, k: nat)
    requires n <= |slots| == |dirty| && k < |Olds(slots, dirty, n)|
    ensures Olds(slots, dirty, n)[k] in slots
  {
    if k < |Olds(slots, dirty, n - 1)| { OldsIn(slots, dirty, n - 1, k); }
  }

  /** There is always a dirty bitmap for every place in the order. */
  lemma {:induction false} NthDirty(dirty: seq<bool>, n: nat, k: nat) returns (i: nat)
    requires n <= |dirty| && k < DirtyCount(dirty, n)
    ensures i < n && dirty[i] && DirtyCount(dirty, i) == k
  {
    if k < DirtyCount(dirty, n - 1) { i := NthDirty(dirty, n - 1, k); } else { i := n - 1; }
  }

  lemma ReuseIff(q: seq<nat>, slots: seq<nat>, dirty: seq<bool>, n: nat)
    requires q != [] && |slots| == |dirty| && Partition(q, slots, n)
    ensures DirtyCount(dirty, |dirty|) <= |q| <==>
            forall i :: 0 <= i < |dirty| && dirty[i] ==> Taken(q, slots, dirty, |dirty|, i) !in slots
  {
    var d, olds := DirtyCount(dirty, |dirty|), Olds(slots, dirty, |dirty|);
    if d <= |q| {
      forall i | 0 <= i < |dirty| && dirty[i]
        ensures Taken(q, slots, dirty, |dirty|, i) !in slots
      {
        DirtyCountGrows(dirty, i + 1, |dirty|);
        InQueue(q, slots, n, DirtyCount(dirty, i));
      }
    } else {
      var i := NthDirty(dirty, |dirty|, |q|);
      OldsIn(slots, dirty, |dirty|, 0);
    }
  }

  lemma InQueue(q: seq<nat>, slots: seq<nat>, n: nat, k: nat)
    requires Partition(q, slots, n) && k < |q|
    ensures q[k] !in slots
  {
    var t := q + slots;
    assert t[k] == q[k] && forall i :: 0 <= i < |slots| ==> t[|q| + i] == slots[i];
  }

  lemma RotatedReuse(q: seq<nat>, slots: seq<nat>, dirty: seq<bool>, q2: seq<nat>, slots2: seq<nat>, n: nat)
    requires q != [] && |slots| == |dirty| && Partition(q, slots, n) && Rotated(q, slots, dirty, |dirty|, q2, slots2)
    ensures |slots2| == |slots|
    ensures DirtyCount(dirty, |dirty|) <= |q| <==> forall i :: 0 <= i < |dirty| && dirty[i] ==> slots2[i] !in slots
  {
    hide Partition, DirtyCount, Taken;
    ReuseIff(q, slots, dirty, n);
  }

  /** One location from each side changes places. */
  lemma Moved(q: seq<nat>, s: seq<nat>, idx: nat, n: nat)
    requires q != [] && idx < |s| && Partition(q, s, n)
    ensures Partition(q[1..] + [s[idx]], s[idx := q[0]], n) && s[idx] !in q && s[idx] < n
  {
    var t, u, m := q + s, q[1..] + [s[idx]] + s[idx := q[0]], |q|;
    assert t[m + idx] == s[idx];
    assert forall i :: 0 <= i < |u| ==>
      u[i] == t[if i < m - 1 then i + 1 else if i == m - 1 then m + idx else if i == m + idx then 0 else i];
    assert forall k :: 0 <= k < |q| ==> t[k] == q[k];
  }

  lemma StillUnlinked(next: seq<nat>, q: seq<nat>, s: seq<nat>, idx: nat)
    requires Links(next, q) && Partition(q, s, |next|) && Unlinked(next, s) && idx < |s|
    ensures Unlinked(next[q[|q| - 1] := s[idx]][q[0] := INDEX_INVALID], s[idx := q[0]])
  {
    var t, m := q + s, |q|;
    assert forall i :: 0 <= i < |s| ==> t[m + i] == s[i];
    assert t[m - 1] == q[m - 1] && t[0] == q[0];
  }
}
