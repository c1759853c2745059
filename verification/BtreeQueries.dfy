/** Multiple queries (apfs_btree_query(), apfs_node_query() and apfs_node_next()). Several
    records may match the key of the query; each call returns one more of them, from the
    last to the first. The query remembers its position on each level of the tree. */
module BtreeQueries {
  import opened Btree
  import opened BtreeOps

  /** A query on one node: the index of the record that it has reached; whether it has
      been run before; and whether what it has reached is already below the key. */
  datatype Frame = Frame(node: Node, index: int, next: bool, done: bool)

  ghost predicate Ordered(s: seq<Rec>) {
    forall i, j :: 0 <= i < j < |s| ==> s[i].key.ord <= s[j].key.ord
  }

  /** A frame above the last, with the entry that it has gone through. */
  ghost predicate Passed(f: Frame, n: Node, i: nat, ord: int) {
    && f.node == n && n.Index? && i < |n.entries| && f.index == i && f.next
    && (f.done <==> n.entries[i].key.ord != ord)
  }

  ghost predicate Chain(root: Node, frames: seq<Frame>, path: seq<nat>, ord: int) {
    && |frames| == |path| + 1 && IsPath(root, path) && frames[|path|].node == NodeAt(root, path)
    && forall k :: 0 <= k < |path| ==>
      IsPath(root, path[..k]) && Passed(frames[k], NodeAt(root, path[..k]), path[k], ord)
  }

  lemma ChainUp(root: Node, frames: seq<Frame>, path: seq<nat>, ord: int)
    requires Chain(root, frames, path, ord) && path != []
    ensures Chain(root, frames[..|path|], Up(path), ord)
    ensures Passed(frames[|path| - 1], NodeAt(root, Up(path)), Last(path), ord)
  {
    var p := Up(path);
    forall k | 0 <= k <= |p|
      ensures k < |p| ==> p[..k] == path[..k]
      ensures IsPath(root, path[..k]) && Passed(frames[k], NodeAt(root, path[..k]), path[k], ord)
    {
    }
    assert path[..|p|] == p;
  }

  lemma ChainDown(root: Node, frames: seq<Frame>, path: seq<nat>, ord: int, i: nat)
    requires Chain(root, frames, path, ord) && Passed(frames[|path|], NodeAt(root, path), i, ord)
    ensures Chain(root, frames + [Fresh(NodeAt(root, path).entries[i].child)], path + [i], ord)
  {
    var q, t := path + [i], frames + [Fresh(NodeAt(root, path).entries[i].child)];
    PathStep(root, path, i);
    forall k | 0 <= k < |q|
      ensures IsPath(root, q[..k]) && Passed(t[k], NodeAt(root, q[..k]), q[k], ord)
    {
      if k < |path| { assert q[..k] == path[..k]; } else { assert q[..k] == path; }
    }
  }

  function Fresh(n: Node): Frame { Frame(n, Count(n), false, false) }

  // Positions in the contents of the tree

  /** The position is the first of what the given record of the node holds. */
  ghost predicate Starts(root: Node, path: seq<nat>, i: nat, pos: nat)
    requires IsPath(root, path) && i < Count(NodeAt(root, path))
  {
    pos == |Before(root, path)| + |Left(NodeAt(root, path), i)|
  }

  /** The target is in the node, and is the last there that is not above the key. */
  ghost predicate Within(root: Node, path: seq<nat>, ord: int, t: nat)
    requires IsPath(root, path)
  {
    var s, first := Contents(root), |Before(root, path)|;
    var end := first + |Contents(NodeAt(root, path))|;
    && first <= t < end <= |s| && s[t].key.ord <= ord && (t + 1 < end ==> s[t + 1].key.ord > ord)
  }

  /** Where the part of a record of a node is, in the whole. */
  lemma PartAt(root: Node, h: nat, path: seq<nat>, i: nat)
    requires Wf(root, h) && IsPath(root, path) && i < Count(NodeAt(root, path))
    ensures var m, s, first := NodeAt(root, path), Contents(root), |Before(root, path)| + |Left(NodeAt(root, path), i)|;
      && |path| <= h && Wf(m, h - |path|) && Part(m, i) != [] && first + |Part(m, i)| <= |s|
      && s[first].key == KeyAt(m, i) && first + |Part(m, i)| <= |Before(root, path)| + |Contents(m)|
      && |Before(root, path)| + |Contents(m)| <= |s|
      && (i + 1 < Count(m) ==> |Left(m, i + 1)| == |Left(m, i)| + |Part(m, i)|)
      && (i + 1 == Count(m) ==> |Contents(m)| == |Left(m, i)| + |Part(m, i)|)
  {
    hide Contents, ContentsOf, Before, After, Left, Right, Part, KeyAt, Wf, Drop, PartNodes, Nodes, First;
    NodeAtWf(root, h, path);
    var m := NodeAt(root, path);
    DropKeeps(m, h - |path|, i);
    PartFirst(m, h - |path|, i);
    var before, left := Before(root, path), Left(m, i);
    assert Contents(root)[|before| + |left|] == Contents(m)[|left|] == Part(m, i)[0];
    LeftNext(m, i);
  }

  lemma PartFirst(m: Node, h: nat, i: nat)
    requires Wf(m, h) && i < Count(m)
    ensures Part(m, i) != [] && Part(m, i)[0].key == KeyAt(m, i)
  {
    if m.Index? {
      assert EntryOk(m.entries[i], h - 1);
      FirstRecord(m.entries[i].child, h - 1);
    }
  }

  lemma LeftNext(m: Node, i: nat)
    requires i < Count(m)
    ensures i + 1 < Count(m) ==> |Left(m, i + 1)| == |Left(m, i)| + |Part(m, i)|
    ensures i + 1 == Count(m) ==> |Contents(m)| == |Left(m, i)| + |Part(m, i)|
  {
    if m.Index? {
      InsertedContents(m.entries, i, m.entries[i]);
      assert m.entries[..|m.entries|] == m.entries;
    }
  }

  lemma KeysOrdered(root: Node, h: nat, path: seq<nat>)
    requires Wf(root, h) && IsPath(root, path) && Ordered(Contents(root))
    ensures InOrder(Ords(NodeAt(root, path)))
  {
    hide Contents, ContentsOf, Before, After, Ords, Left, Part;
    var m := NodeAt(root, path);
    OrdsAt(m);
    forall i, j | 0 <= i < j < Count(m)
      ensures Ords(m)[i] <= Ords(m)[j]
    {
      PartAt(root, h, path, i);
      PartAt(root, h, path, j);
      LeftGrows(m, i, j);
    }
  }

  lemma {:induction false} LeftGrows(m: Node, i: nat, j: nat)
    requires i <= j < Count(m)
    ensures |Left(m, i)| <= |Left(m, j)|
    decreases j - i
  {
    hide Left, Part;
    if i < j {
      LeftNext(m, j - 1);
      LeftGrows(m, i, j - 1);
    }
  }

  /** The search goes down through the entry that holds the target. */
  lemma TargetIn(root: Node, h: nat, path: seq<nat>, ord: int, t: nat, i: nat)
    requires Wf(root, h) && Ordered(Contents(root)) && IsPath(root, path) && Within(root, path, ord, t)
    requires i < Count(NodeAt(root, path)) && KeyAt(NodeAt(root, path), i).ord <= ord
    requires i + 1 < Count(NodeAt(root, path)) ==> KeyAt(NodeAt(root, path), i + 1).ord > ord
    ensures var m, first := NodeAt(root, path), |Before(root, path)| + |Left(NodeAt(root, path), i)|;
      first <= t < first + |Part(m, i)|
  {
    hide ContentsOf, Before, After, Left, Part, KeyAt;
    PartAt(root, h, path, i);
    if i + 1 < Count(NodeAt(root, path)) { PartAt(root, h, path, i + 1); }
  }

  lemma DownWithin(root: Node, h: nat, path: seq<nat>, ord: int, t: nat, i: nat)
    requires Wf(root, h) && Ordered(Contents(root)) && IsPath(root, path) && Within(root, path, ord, t)
    requires NodeAt(root, path).Index? && i < Count(NodeAt(root, path)) && KeyAt(NodeAt(root, path), i).ord <= ord
    requires i + 1 < Count(NodeAt(root, path)) ==> KeyAt(NodeAt(root, path), i + 1).ord > ord
    ensures IsPath(root, path + [i]) && Within(root, path + [i], ord, t)
  {
    hide ContentsOf, Before, After;
    TargetIn(root, h, path, ord, t, i);
    PartAt(root, h, path, i);
    PathStep(root, path, i);
  }

  lemma SomeLow(root: Node, h: nat, path: seq<nat>, ord: int, t: nat)
    requires Wf(root, h) && Ordered(Contents(root)) && IsPath(root, path) && Within(root, path, ord, t)
    ensures Count(NodeAt(root, path)) > 0 && KeyAt(NodeAt(root, path), 0).ord <= ord
  {
    hide Contents, ContentsOf, Before, After, KeyAt, Left, Part, Wf;
    NodeAtWf(root, h, path);
    WfCount(NodeAt(root, path), h - |path|);
    PartAt(root, h, path, 0);
    LeftNone(NodeAt(root, path));
  }

  lemma LeftNone(m: Node)
    requires Count(m) > 0
    ensures Left(m, 0) == []
  {
  }

  /** At the first record of a node, the position is also where the node itself starts. */
  lemma UpStarts(root: Node, path: seq<nat>, pos: nat)
    requires IsPath(root, path) && path != [] && Count(NodeAt(root, path)) > 0 && Starts(root, path, 0, pos)
    ensures IsPath(root, Up(path)) && Last(path) < Count(NodeAt(root, Up(path))) &&
      Starts(root, Up(path), Last(path), pos)
  {
    hide Left, Before;
    BeforeUp(root, path);
    LeftNone(NodeAt(root, path));
  }

  /** The record before the position is the last one of the record before in the node. */
  lemma BackWithin(root: Node, h: nat, path: seq<nat>, ord: int, i: nat, pos: nat)
    requires Wf(root, h) && Ordered(Contents(root)) && IsPath(root, path)
    requires 0 < i < Count(NodeAt(root, path)) && Starts(root, path, i, pos)
    requires pos < |Contents(root)| && Contents(root)[pos].key.ord == ord
    ensures pos > 0 && KeyAt(NodeAt(root, path), i - 1).ord <= ord
    ensures NodeAt(root, path).Leaf? ==>
      Starts(root, path, i - 1, pos - 1) && Contents(root)[pos - 1].key == KeyAt(NodeAt(root, path), i - 1)
    ensures NodeAt(root, path).Index? ==> IsPath(root, path + [i - 1]) && Within(root, path + [i - 1], ord, pos - 1)
  {
    hide ContentsOf, Before, After;
    PartAt(root, h, path, i - 1);
    if NodeAt(root, path).Index? { PathStep(root, path, i - 1); }
  }

  /** The query is at a position whose record matches. */
  ghost predicate AtMatch(root: Node, frames: seq<Frame>, path: seq<nat>, ord: int, pos: nat) {
    && Chain(root, frames, path, ord) && NodeAt(root, path).Leaf?
    && frames[|path|].next && !frames[|path|].done && 0 <= frames[|path|].index < Count(NodeAt(root, path))
    && Starts(root, path, frames[|path|].index, pos)
    && pos < |Contents(root)| && Contents(root)[pos].key.ord == ord
  }

  datatype Outcome = Success | NoData | Again

  /** apfs_node_next() for an exact query. */
  method NodeNext(f: Frame, ord: int) returns (outcome: Outcome, g: Frame)
    requires f.next && 0 <= f.index < Count(f.node) && (f.index > 0 ==> KeyAt(f.node, f.index - 1).ord <= ord)
    ensures outcome == NoData <==> f.done || (f.index > 0 && f.node.Leaf? && KeyAt(f.node, f.index - 1).ord != ord)
    ensures outcome == Again <==> !f.done && f.index == 0
    ensures outcome == Success ==> g == Frame(f.node, f.index - 1, true, KeyAt(f.node, f.index - 1).ord != ord)
  {
    g := f;
    if f.done {
      return NoData, g;
    }
    if f.index == 0 {
      return Again, g;
    }
    g := g.(index := g.index - 1);
    var differs := KeyAt(g.node, g.index).ord != ord;
    if differs && g.node.Leaf? {
      return NoData, g;
    }
    g := g.(done := differs);
    outcome := Success;
  }

  /** apfs_node_query() for an exact multiple query on a new node. */
  method NodeFirst(f: Frame, ord: int) returns (outcome: Outcome, g: Frame)
    requires InOrder(Ords(f.node))
    ensures g.node == f.node && -1 <= g.index < Count(f.node)
    ensures g.index >= 0 ==> KeyAt(f.node, g.index).ord <= ord
    ensures g.index + 1 < Count(f.node) ==> KeyAt(f.node, g.index + 1).ord > ord
    ensures outcome == NoData <==> g.index < 0 || (f.node.Leaf? && KeyAt(f.node, g.index).ord != ord)
    ensures outcome != Again
    ensures outcome == Success ==> g.next && (g.done <==> KeyAt(f.node, g.index).ord != ord)
  {
    var i := NodeQuery(Ords(f.node), ord, true);
    g := f.(index := i);
    OrdsAt(f.node);
    if i < 0 {
      return NoData, g;
    }
    var differs := KeyAt(f.node, i).ord != ord;
    if differs && f.node.Leaf? {
      return NoData, g;
    }
    g := g.(next := true, done := differs);
    outcome := Success;
  }

  lemma ChainTop(root: Node, frames: seq<Frame>, path: seq<nat>, ord: int, g: Frame)
    requires Chain(root, frames, path, ord) && g.node == frames[|path|].node
    ensures Chain(root, frames[|path| := g], path, ord)
  {
  }

  lemma StartOfAll(root: Node, pos: nat)
    requires Count(root) > 0 && Starts(root, [], 0, pos)
    ensures pos == 0
  {
    LeftNone(root);
  }

  lemma SameKey(root: Node, h: nat, path: seq<nat>, i: nat, pos: nat)
    requires Wf(root, h) && IsPath(root, path) && i < Count(NodeAt(root, path)) && Starts(root, path, i, pos)
    ensures pos < |Contents(root)| && Contents(root)[pos].key == KeyAt(NodeAt(root, path), i)
  {
    hide Contents, ContentsOf, Before, After, Left, Part, KeyAt, Wf;
    PartAt(root, h, path, i);
  }

  /** The way back up in apfs_btree_query(), until there is an earlier record in the node. */
  method ClimbUp(root: Node, frames: seq<Frame>, ord: int, ghost h: nat, ghost path: seq<nat>, ghost pos: nat)
    returns (found: bool, frames2: seq<Frame>, ghost path2: seq<nat>)
    requires Wf(root, h) && Ordered(Contents(root)) && AtMatch(root, frames, path, ord, pos)
    ensures !found ==> pos == 0 || Contents(root)[pos - 1].key.ord != ord
    ensures found ==> pos > 0 && Chain(root, frames2, path2, ord)
    ensures found && NodeAt(root, path2).Leaf? ==> AtMatch(root, frames2, path2, ord, pos - 1)
    ensures found && NodeAt(root, path2).Index? ==>
            var i := frames2[|path2|].index;
            && 0 <= i && Passed(frames2[|path2|], NodeAt(root, path2), i, ord)
            && IsPath(root, path2 + [i]) && Within(root, path2 + [i], ord, pos - 1)
  {
    hide Contents, ContentsOf, Before, After, Starts, Left, Within, Wf, Ordered;
    frames2, path2, found := frames, path, false;
    while true
      invariant Chain(root, frames2, path2, ord)
      invariant var f := frames2[|path2|];
        f.next && !f.done && 0 <= f.index < Count(f.node) && Starts(root, path2, f.index, pos)
      decreases |path2|
    {
      var n := |frames2| - 1;
      var f := frames2[n];
      if f.index > 0 { BackWithin(root, h, path2, ord, f.index, pos); }
      var outcome, g := NodeNext(f, ord);
      if outcome == NoData {
        return;
      }
      if outcome == Success {
        ChainTop(root, frames2, path2, ord, g);
        frames2 := frames2[n := g];
        found := true;
        return;
      }
      if n == 0 {
        StartOfAll(root, pos);
        return;
      }
      ChainUp(root, frames2, path2, ord);
      UpStarts(root, path2, pos);
      SameKey(root, h, Up(path2), Last(path2), pos);
      frames2 := frames2[..n];
      path2 := Up(path2);
    }
  }

  /** The way down in apfs_btree_query(), to the last record that is not above the key. If
      there is none, the search gives up at the root. */
  method GoToLeaf(root: Node, frames: seq<Frame>, ord: int, ghost h: nat, ghost path: seq<nat>, ghost t: int)
    returns (found: bool, frames2: seq<Frame>, ghost path2: seq<nat>)
    requires TreeOk(root, h) && Ordered(Contents(root)) && Chain(root, frames, path, ord)
    requires if t < 0 then path == [] && AllAbove(Contents(root), ord) else Within(root, path, ord, t)
    ensures found <==> t >= 0 && Contents(root)[t].key.ord == ord
    ensures found ==> AtMatch(root, frames2, path2, ord, t)
  {
    hide Contents, ContentsOf, Before, After, Left, Part, Within, Ordered, Starts, Ords, InOrder;
    frames2, path2, found := frames, path, false;
    if root == Leaf([]) { EmptyRoot(root, frames, path, ord, t); } else { NodeAtWf(root, h, path); }
    while true
      invariant Chain(root, frames2, path2, ord) && |path2| <= h
      invariant if t < 0 then path2 == [] else Within(root, path2, ord, t)
      invariant root == Leaf([]) ==> t < 0 && frames2 == frames && Count(frames[|frames| - 1].node) == 0
      decreases h - |path2|
    {
      var n := |frames2| - 1;
      if root == Leaf([]) {
        NoKeys(frames2[n].node);
      } else {
        KeysOrdered(root, h, path2);
        NodeAtWf(root, h, path2);
        if t < 0 { AllHigh(root, h, ord); } else { SomeLow(root, h, path2, ord, t); }
      }
      var outcome, g := NodeFirst(frames2[n], ord);
      if outcome == NoData {
        if t >= 0 {
          LeafTarget(root, h, path2, ord, t, g.index);
          SameKey(root, h, path2, g.index, t);
        }
        return;
      }
      ChainTop(root, frames2, path2, ord, g);
      frames2 := frames2[n := g];
      if g.node.Leaf? {
        LeafTarget(root, h, path2, ord, t, g.index);
        SameKey(root, h, path2, g.index, t);
        found := true;
        return;
      }
      DownWithin(root, h, path2, ord, t, g.index);
      PathStep(root, path2, g.index);
      NodeAtWf(root, h, path2 + [g.index]);
      ChainDown(root, frames2, path2, ord, g.index);
      frames2 := frames2 + [Fresh(g.node.entries[g.index].child)];
      path2 := path2 + [g.index];
    }
  }

  lemma EmptyRoot(root: Node, frames: seq<Frame>, path: seq<nat>, ord: int, t: int)
    requires root == Leaf([]) && Chain(root, frames, path, ord) && (t >= 0 ==> Within(root, path, ord, t))
    ensures t < 0 && path == [] && frames[|frames| - 1].node == root
  {
  }

  lemma NoKeys(n: Node)
    requires n == Leaf([])
    ensures InOrder(Ords(n))
  {
  }

  lemma AllHigh(root: Node, h: nat, ord: int)
    requires Wf(root, h) && Ordered(Contents(root)) && AllAbove(Contents(root), ord)
    ensures forall i :: 0 <= i < Count(root) ==> KeyAt(root, i).ord > ord
  {
    hide Contents, ContentsOf, Before, After, Left, Part, Wf, KeyAt;
    forall i | 0 <= i < Count(root)
      ensures KeyAt(root, i).ord > ord
    {
      PartAt(root, h, [], i);
    }
  }

  lemma LeafTarget(root: Node, h: nat, path: seq<nat>, ord: int, t: nat, i: nat)
    requires Wf(root, h) && Ordered(Contents(root)) && IsPath(root, path) && Within(root, path, ord, t)
    requires NodeAt(root, path).Leaf? && i < Count(NodeAt(root, path)) && KeyAt(NodeAt(root, path), i).ord <= ord
    requires i + 1 < Count(NodeAt(root, path)) ==> KeyAt(NodeAt(root, path), i + 1).ord > ord
    ensures Starts(root, path, i, t)
  {
    hide Contents, ContentsOf, Before, After, Within, Ordered, Wf;
    TargetIn(root, h, path, ord, t, i);
  }

  lemma {:induction false} PlaceOrdered(s: seq<Rec>, ord: int)
    requires Ordered(s)
    ensures AllAtMost(s[..Place(s, ord)], ord) && AllAbove(s[Place(s, ord)..], ord)
  {
    if s != [] && s[|s| - 1].key.ord > ord {
      var t := s[..|s| - 1];
      PlaceOrdered(t, ord);
      assert t[..Place(t, ord)] == s[..Place(t, ord)];
      assert s[Place(t, ord)..] == t[Place(t, ord)..] + [s[|s| - 1]];
    }
  }

  /** The first call of a multiple query finds the last match. */
  method FirstCall(root: Node, ord: int, ghost h: nat)
    returns (found: bool, frames: seq<Frame>, ghost path: seq<nat>, ghost hi: nat)
    requires TreeOk(root, h) && Ordered(Contents(root))
    ensures hi == Place(Contents(root), ord)
    ensures found <==> hi > 0 && Contents(root)[hi - 1].key.ord == ord
    ensures found ==> AtMatch(root, frames, path, ord, hi - 1)
  {
    hide Contents, ContentsOf, Before, After, Place, Wf;
    hi := Place(Contents(root), ord);
    PlaceOrdered(Contents(root), ord);
    RootOnly(root);
    FirstTarget(Contents(root), ord, hi);
    found, frames, path := GoToLeaf(root, [Fresh(root)], ord, h, [], hi - 1);
  }

  lemma FirstTarget(s: seq<Rec>, ord: int, hi: nat)
    requires hi <= |s| && AllAtMost(s[..hi], ord) && AllAbove(s[hi..], ord)
    ensures hi == 0 ==> AllAbove(s, ord)
    ensures hi > 0 ==> s[hi - 1].key.ord <= ord && (hi < |s| ==> s[hi].key.ord > ord)
  {
    assert hi > 0 ==> s[..hi][hi - 1] == s[hi - 1];
    assert hi < |s| ==> s[hi..][0] == s[hi];
    assert hi == 0 ==> s[hi..] == s;
  }

  /** Each later call finds the match before, if there is one. */
  method NextCall(root: Node, frames: seq<Frame>, ord: int, ghost h: nat, ghost path: seq<nat>, ghost pos: nat)
    returns (found: bool, frames2: seq<Frame>, ghost path2: seq<nat>)
    requires Wf(root, h) && Ordered(Contents(root)) && AtMatch(root, frames, path, ord, pos)
    ensures found <==> pos > 0 && Contents(root)[pos - 1].key.ord == ord
    ensures found ==> AtMatch(root, frames2, path2, ord, pos - 1)
  {
    hide Contents, ContentsOf, Before, After, Left, Part, Within, Ordered, Wf, Starts;
    found, frames2, path2 := ClimbUp(root, frames, ord, h, path, pos);
    if found && frames2[|frames2| - 1].node.Index? {
      var n := |frames2| - 1;
      var i := frames2[n].index;
      ChainDown(root, frames2, path2, ord, i);
      found, frames2, path2 := GoToLeaf(root, frames2 + [Fresh(frames2[n].node.entries[i].child)], ord, h,
        path2 + [i], pos - 1);
    }
  }

  /** The records with a key, from the last one to the first. */
  function Descending(s: seq<Rec>, ord: int): seq<Rec> {
    if s == [] then []
    else (if s[|s| - 1].key.ord == ord then [s[|s| - 1]] else []) + Descending(s[..|s| - 1], ord)
  }

  /** Exactly the records of some stretch have the key. */
  ghost predicate Stretch(s: seq<Rec>, ord: int, lo: nat, hi: nat) {
    lo <= hi <= |s| && forall i :: 0 <= i < |s| ==> (s[i].key.ord == ord <==> lo <= i < hi)
  }

  /** In an ordered sequence there is always such a stretch. */
  lemma {:induction false} MatchesAre(s: seq<Rec>, ord: int) returns (lo: nat, hi: nat)
    requires Ordered(s)
    ensures Stretch(s, ord, lo, hi)
    decreases |s|
  {
    if s == [] {
      return 0, 0;
    }
    var n := |s| - 1;
    var init := s[..n];
    lo, hi := MatchesAre(init, ord);
    assert forall i :: 0 <= i < n ==> s[i] == init[i];
    if s[n].key.ord == ord {
      if lo < hi {
        assert s[lo].key.ord == ord && s[lo].key.ord <= s[n - 1].key.ord <= s[n].key.ord;
        assert init[n - 1].key.ord == ord;
      }
      lo, hi := if lo == hi then n else lo, n + 1;
    }
  }

  lemma StretchInit(s: seq<Rec>, ord: int, lo: nat, hi: nat)
    requires Stretch(s, ord, lo, hi) && s != []
    ensures var n := |s| - 1;
      && Stretch(s[..n], ord, if lo < n then lo else n, if hi < n then hi else n)
      && (s[n].key.ord == ord <==> lo <= n < hi) && lo <= hi <= |s|
      && Descending(s, ord) == (if s[n].key.ord == ord then [s[n]] else []) + Descending(s[..n], ord)
  {
    hide Descending;
    DescendingLast(s, ord);
  }

  lemma DescendingLast(s: seq<Rec>, ord: int)
    requires s != []
    ensures var n := |s| - 1;
      Descending(s, ord) == (if s[n].key.ord == ord then [s[n]] else []) + Descending(s[..n], ord)
  {
  }

  /** The matches are listed from the end of the stretch to its start. */
  lemma {:induction false} DescendingIs(s: seq<Rec>, ord: int, lo: nat, hi: nat, k: nat)
    requires Stretch(s, ord, lo, hi)
    ensures lo <= hi <= |s| && |Descending(s, ord)| == hi - lo
    ensures k < hi - lo ==> Descending(s, ord)[k] == s[hi - 1 - k]
    decreases |s|
  {
    if s != [] {
      hide Stretch, Descending;
      var n := |s| - 1;
      StretchInit(s, ord, lo, hi);
      var j := if hi > n && k > 0 then k - 1 else k;
      DescendingIs(s[..n], ord, if lo < n then lo else n, if hi < n then hi else n, j);
    }
  }

  lemma {:induction false} DescendingNone(s: seq<Rec>, ord: int)
    requires forall p :: 0 <= p < |s| ==> s[p].key.ord != ord
    ensures Descending(s, ord) == []
  {
    if s != [] { DescendingNone(s[..|s| - 1], ord); }
  }

  lemma {:induction false} DescendingAfter(s: seq<Rec>, ord: int, hi: nat)
    requires hi <= |s| && forall p :: hi <= p < |s| ==> s[p].key.ord != ord
    ensures Descending(s, ord) == Descending(s[..hi], ord)
  {
    if hi < |s| {
      DescendingAfter(s[..|s| - 1], ord, hi);
      assert s[..|s| - 1][..hi] == s[..hi];
    } else {
      assert s[..hi] == s;
    }
  }

  lemma DescendingNext(s: seq<Rec>, ord: int, lo: nat)
    requires lo < |s| && s[lo].key.ord == ord
    ensures Descending(s[..lo + 1], ord) == [s[lo]] + Descending(s[..lo], ord)
  {
    assert s[..lo + 1][..lo] == s[..lo];
  }

  /** Repeated calls list every match exactly once, from the last one to the first. */
  method ListMatches(root: Node, ord: int, ghost h: nat) returns (list: seq<Rec>)
    requires TreeOk(root, h) && Ordered(Contents(root))
    ensures list == Descending(Contents(root), ord)
  {
    hide Contents, ContentsOf, Before, After, Left, Part, Within, Wf, Place, Descending;
    ghost var s := Contents(root);
    list := [];
    var found, frames;
    ghost var path;
    ghost var lo: nat;
    found, frames, path, lo := FirstCall(root, ord, h);
    PlaceOrdered(s, ord);
    AllAfter(s, ord, lo);
    while found
      invariant lo <= |s| && list + Descending(s[..lo], ord) == Descending(s, ord)
      invariant if found then lo > 0 && AtMatch(root, frames, path, ord, lo - 1)
        else lo == 0 || s[lo - 1].key.ord != ord
      invariant lo == 0 || s[lo - 1].key.ord <= ord
      decreases lo, found
    {
      lo := lo - 1;
      var top := frames[|frames| - 1];
      MatchIs(root, frames, path, ord, lo);
      if root == Leaf([]) { NoRecords(root); }
      AtRecord(root, h, frames, path, ord, lo);
      DescendingNext(s, ord, lo);
      list := list + [top.node.recs[top.index]];
      found, frames, path := NextCall(root, frames, ord, h, path, lo);
    }
    AllBefore(s, ord, lo);
  }

  lemma AtRecord(root: Node, h: nat, frames: seq<Frame>, path: seq<nat>, ord: int, pos: nat)
    requires Wf(root, h) && AtMatch(root, frames, path, ord, pos)
    ensures frames[|path|].node.Leaf? && frames[|path|].index < |frames[|path|].node.recs|
    ensures frames[|path|].node.recs[frames[|path|].index] == Contents(root)[pos]
  {
    hide Wf, Before, After;
    NodeAtWf(root, h, path);
    var m, i := NodeAt(root, path), frames[|path|].index;
    assert Contents(m)[i] == Contents(root)[|Before(root, path)| + i];
  }

  lemma NoRecords(root: Node)
    requires root == Leaf([])
    ensures Contents(root) == []
  {
  }

  lemma MatchIs(root: Node, frames: seq<Frame>, path: seq<nat>, ord: int, pos: nat)
    requires AtMatch(root, frames, path, ord, pos)
    ensures pos < |Contents(root)| && Contents(root)[pos].key.ord == ord
  {
    hide Contents, Before, After;
  }

  /** Nothing after the place of a key matches it. */
  lemma AllAfter(s: seq<Rec>, ord: int, hi: nat)
    requires Ordered(s) && hi == Place(s, ord)
    ensures hi <= |s| && Descending(s, ord) == Descending(s[..hi], ord) && (hi > 0 ==> s[hi - 1].key.ord <= ord)
  {
    hide Place, Descending;
    PlaceOrdered(s, ord);
    forall p | hi <= p < |s|
      ensures s[p].key.ord != ord
    {
      assert s[hi..][p - hi] == s[p];
    }
    DescendingAfter(s, ord, hi);
  }

  /** Nothing before a smaller key does. */
  lemma AllBefore(s: seq<Rec>, ord: int, lo: nat)
    requires Ordered(s) && lo <= |s| && (lo == 0 || s[lo - 1].key.ord < ord)
    ensures Descending(s[..lo], ord) == []
  {
    hide Descending;
    DescendingNone(s[..lo], ord);
  }
}
