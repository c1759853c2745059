/** B-trees as values (btree.c, node.c). A leaf holds records; an index node holds, for
    each of its children, a copy of the first key in it. The room in a node is left to
    BtreeNode: here it is an oracle. */
module Btree {

  /** Keys compare by ord; the length only matters for the room. */
  datatype Key = Key(ord: int, len: nat)

  datatype Rec = Rec(key: Key, val: nat, vlen: nat)

  datatype Entry = Entry(key: Key, child: Node)

  datatype Node = Leaf(recs: seq<Rec>) | Index(entries: seq<Entry>)

  function Count(n: Node): nat {
    if n.Leaf? then |n.recs| else |n.entries|
  }

  // What a tree holds

  /** All the records in the leaves, in order. */
  function Contents(n: Node): seq<Rec>
    decreases n
  {
    match n
    case Leaf(recs) => recs
    case Index(entries) => ContentsOf(entries)
  }

  function ContentsOf(es: seq<Entry>): seq<Rec>
    decreases es
  {
    if es == [] then [] else assert es decreases to es[0]; Contents(es[0].child) + ContentsOf(es[1..])
  }

  function Nodes(n: Node): nat
    decreases n
  {
    match n
    case Leaf(_) => 1
    case Index(entries) => 1 + NodesOf(entries)
  }

  function NodesOf(es: seq<Entry>): nat
    decreases es
  {
    if es == [] then 0 else assert es decreases to es[0]; Nodes(es[0].child) + NodesOf(es[1..])
  }

  /** How many more times the nodes could be split. */
  function Splits(n: Node): nat
    decreases n
  {
    match n
    case Leaf(recs) => if recs == [] then 0 else 2 * |recs| - 2
    case Index(entries) => SplitsOf(entries) + if |entries| < 2 then 0 else |entries| - 2
  }

  function SplitsOf(es: seq<Entry>): nat
    decreases es
  {
    if es == [] then 0 else assert es decreases to es[0]; Splits(es[0].child) + SplitsOf(es[1..])
  }

  // Well-formed trees

  function First(n: Node): Key
    requires Count(n) > 0
  {
    if n.Leaf? then n.recs[0].key else n.entries[0].key
  }

  /** A tree of height h with no empty nodes, in which each entry of an index node has the
      first key of its child. */
  ghost predicate Wf(n: Node, h: nat)
    decreases h, 0
  {
    if h == 0 then n.Leaf? && n.recs != []
    else n.Index? && n.entries != [] && forall i :: 0 <= i < |n.entries| ==> EntryOk(n.entries[i], h - 1)
  }

  ghost predicate EntryOk(e: Entry, h: nat)
    decreases h, 1
  {
    Wf(e.child, h) && e.key == First(e.child)
  }

  lemma {:induction false} ContentsConcat(a: seq<Entry>, b: seq<Entry>)
    ensures ContentsOf(a + b) == ContentsOf(a) + ContentsOf(b)
    ensures NodesOf(a + b) == NodesOf(a) + NodesOf(b)
    ensures SplitsOf(a + b) == SplitsOf(a) + SplitsOf(b)
  {
    if a == [] {
      assert a + b == b;
    } else {
      hide Contents, Nodes, Splits;
      ContentsConcat(a[1..], b);
      assert (a + b)[1..] == a[1..] + b && (a + b)[0] == a[0];
    }
  }

  lemma ContentsSplit(es: seq<Entry>, i: nat)
    requires i < |es|
    ensures ContentsOf(es) == ContentsOf(es[..i]) + Contents(es[i].child) + ContentsOf(es[i + 1..])
    ensures NodesOf(es) == NodesOf(es[..i]) + Nodes(es[i].child) + NodesOf(es[i + 1..])
    ensures SplitsOf(es) == SplitsOf(es[..i]) + Splits(es[i].child) + SplitsOf(es[i + 1..])
  {
    ContentsConcat(es[..i], es[i..]);
    assert es == es[..i] + es[i..] && es[i..][1..] == es[i + 1..];
  }

  /** The first key of a well-formed tree is that of its first record. */
  lemma {:induction false} FirstRecord(n: Node, h: nat)
    requires Wf(n, h)
    ensures Contents(n) != [] && First(n) == Contents(n)[0].key
    decreases h
  {
    if h > 0 {
      assert EntryOk(n.entries[0], h - 1);
      FirstRecord(n.entries[0].child, h - 1);
    }
  }

  // Nodes by their path from the root

  predicate IsPath(n: Node, path: seq<nat>)
    decreases |path|
  {
    path == [] || (n.Index? && path[0] < |n.entries| && IsPath(n.entries[path[0]].child, path[1..]))
  }

  function NodeAt(n: Node, path: seq<nat>): Node
    requires IsPath(n, path)
    decreases |path|
  {
    if path == [] then n else NodeAt(n.entries[path[0]].child, path[1..])
  }

  /** The tree with another node in the place of one; nothing else changes. */
  function SetAt(n: Node, path: seq<nat>, m: Node): Node
    requires IsPath(n, path)
    decreases |path|
  {
    if path == [] then m
    else
      var e := n.entries[path[0]];
      Index(n.entries[path[0] := e.(child := SetAt(e.child, path[1..], m))])
  }

  /** The same, but with the keys above brought up to date. */
  function Put(n: Node, path: seq<nat>, m: Node): (r: Node)
    requires IsPath(n, path) && Count(m) > 0
    ensures Count(r) > 0
    decreases |path|
  {
    if path == [] then m
    else
      var child := Put(n.entries[path[0]].child, path[1..], m);
      Index(n.entries[path[0] := Entry(First(child), child)])
  }

  function Before(n: Node, path: seq<nat>): seq<Rec>
    requires IsPath(n, path)
    decreases |path|
  {
    if path == [] then [] else ContentsOf(n.entries[..path[0]]) + Before(n.entries[path[0]].child, path[1..])
  }

  function After(n: Node, path: seq<nat>): seq<Rec>
    requires IsPath(n, path)
    decreases |path|
  {
    if path == [] then [] else After(n.entries[path[0]].child, path[1..]) + ContentsOf(n.entries[path[0] + 1..])
  }

  lemma {:induction false} NodeAtWf(n: Node, h: nat, path: seq<nat>)
    requires Wf(n, h) && IsPath(n, path)
    ensures |path| <= h && Wf(NodeAt(n, path), h - |path|)
    ensures Contents(n) == Before(n, path) + Contents(NodeAt(n, path)) + After(n, path)
    decreases |path|
  {
    hide ContentsOf, NodesOf, SplitsOf;
    if path != [] {
      var i := path[0];
      assert EntryOk(n.entries[i], h - 1);
      NodeAtWf(n.entries[i].child, h - 1, path[1..]);
      ContentsSplit(n.entries, i);
    }
  }

  /** Putting a well-formed node in the place of another only changes what it holds. */
  lemma {:induction false} PutWf(n: Node, h: nat, path: seq<nat>, m: Node)
    requires Wf(n, h) && IsPath(n, path) && |path| <= h && Wf(m, h - |path|)
    ensures Wf(Put(n, path, m), h)
    decreases |path|
  {
    if path != [] {
      var i := path[0];
      assert EntryOk(n.entries[i], h - 1);
      PutWf(n.entries[i].child, h - 1, path[1..], m);
      var r := Put(n, path, m);
      assert EntryOk(r.entries[i], h - 1);
    }
  }

  lemma {:induction false} PutContents(n: Node, path: seq<nat>, m: Node)
    requires IsPath(n, path) && Count(m) > 0
    ensures Contents(Put(n, path, m)) == Before(n, path) + Contents(m) + After(n, path)
    ensures Nodes(Put(n, path, m)) == Nodes(n) - Nodes(NodeAt(n, path)) + Nodes(m)
    ensures Splits(Put(n, path, m)) == Splits(n) - Splits(NodeAt(n, path)) + Splits(m)
    decreases |path|
  {
    hide ContentsOf, NodesOf, SplitsOf;
    if path != [] {
      var i, r := path[0], Put(n, path, m);
      PutContents(n.entries[i].child, path[1..], m);
      PutEntries(n.entries, i, r.entries[i]);
    }
  }

  lemma PutEntries(es: seq<Entry>, i: nat, e: Entry)
    requires i < |es|
    ensures ContentsOf(es[i := e]) == ContentsOf(es[..i]) + Contents(e.child) + ContentsOf(es[i + 1..])
    ensures NodesOf(es[i := e]) == NodesOf(es) - Nodes(es[i].child) + Nodes(e.child)
    ensures SplitsOf(es[i := e]) == SplitsOf(es) - Splits(es[i].child) + Splits(e.child)
  {
    hide ContentsOf, NodesOf, SplitsOf;
    var r := es[i := e];
    assert r[..i] == es[..i] && r[i + 1..] == es[i + 1..];
    ContentsSplit(es, i);
    ContentsSplit(r, i);
  }

  // Keeping the keys above up to date

  predicate AllZero(path: seq<nat>) { forall i :: 0 <= i < |path| ==> path[i] == 0 }

  function WithKey(n: Node, i: nat, key: Key): Node
    requires n.Index? && i < |n.entries|
  {
    Index(n.entries[i := n.entries[i].(key := key)])
  }

  /** A new key for the entry at a path, and for those above it that must have the same. */
  function KeySet(n: Node, path: seq<nat>, key: Key): (r: Node)
    requires IsPath(n, path) && path != []
    ensures r.Index? && |r.entries| == |n.entries|
    decreases |path|
  {
    var e := n.entries[path[0]];
    if |path| == 1 then WithKey(n, path[0], key)
    else Index(n.entries[path[0] := Entry(if AllZero(path[1..]) then key else e.key, KeySet(e.child, path[1..], key))])
  }

  lemma {:induction false} PutFirst(n: Node, h: nat, path: seq<nat>, m: Node)
    requires Wf(n, h) && IsPath(n, path) && Count(m) > 0
    ensures First(Put(n, path, m)) == if AllZero(path) then First(m) else First(n)
    decreases |path|
  {
    if path != [] {
      assert EntryOk(n.entries[path[0]], h - 1);
      PutFirst(n.entries[path[0]].child, h - 1, path[1..], m);
    }
  }

  /** New keys above, and then the node itself: this is the same as putting it. */
  lemma {:induction false} PutKeySet(n: Node, h: nat, path: seq<nat>, m: Node)
    requires Wf(n, h) && IsPath(n, path) && path != [] && Count(m) > 0
    ensures IsPath(KeySet(n, path, First(m)), path) && SetAt(KeySet(n, path, First(m)), path, m) == Put(n, path, m)
    ensures NodeAt(KeySet(n, path, First(m)), path) == NodeAt(n, path)
    decreases |path|
  {
    var e := n.entries[path[0]];
    assert EntryOk(e, h - 1);
    if |path| > 1 {
      PutKeySet(e.child, h - 1, path[1..], m);
      PutFirst(e.child, h - 1, path[1..], m);
    }
  }

  lemma {:induction false} SetAtSame(n: Node, h: nat, path: seq<nat>, m: Node)
    requires Wf(n, h) && IsPath(n, path) && Count(m) > 0
    requires Count(NodeAt(n, path)) > 0 && First(m) == First(NodeAt(n, path))
    ensures SetAt(n, path, m) == Put(n, path, m)
    decreases |path|
  {
    if path != [] {
      var e := n.entries[path[0]];
      assert EntryOk(e, h - 1);
      SetAtSame(e.child, h - 1, path[1..], m);
      PutFirst(e.child, h - 1, path[1..], m);
      if AllZero(path[1..]) { FirstDown(e.child, h - 1, path[1..]); }
    }
  }

  lemma {:induction false} FirstDown(n: Node, h: nat, path: seq<nat>)
    requires Wf(n, h) && IsPath(n, path) && AllZero(path)
    ensures Count(NodeAt(n, path)) > 0 && First(NodeAt(n, path)) == First(n)
    decreases |path|
  {
    if path != [] {
      assert EntryOk(n.entries[0], h - 1);
      FirstDown(n.entries[0].child, h - 1, path[1..]);
    }
  }

  function Up(path: seq<nat>): seq<nat>
    requires path != []
  {
    path[..|path| - 1]
  }

  function Last(path: seq<nat>): nat
    requires path != []
  {
    path[|path| - 1]
  }

  lemma {:induction false} UpPath(n: Node, path: seq<nat>)
    requires IsPath(n, path) && path != []
    ensures IsPath(n, Up(path)) && NodeAt(n, Up(path)).Index? && Last(path) < |NodeAt(n, Up(path)).entries|
    ensures NodeAt(n, path) == NodeAt(n, Up(path)).entries[Last(path)].child
    decreases |path|
  {
    if |path| > 1 {
      UpPath(n.entries[path[0]].child, path[1..]);
      assert Up(path)[1..] == Up(path[1..]);
    }
  }

  /** The keys are set from the top down to the entry itself. */
  lemma {:induction false} KeySetUp(n: Node, path: seq<nat>, key: Key)
    requires IsPath(n, path) && path != []
    ensures IsPath(n, Up(path)) && NodeAt(n, Up(path)).Index? && Last(path) < |NodeAt(n, Up(path)).entries|
    ensures var p, i := Up(path), Last(path);
      var above := if p != [] && i == 0 then KeySet(n, p, key) else n;
      && IsPath(above, p) && NodeAt(above, p) == NodeAt(n, p)
      && KeySet(n, path, key) == SetAt(above, p, WithKey(NodeAt(n, p), i, key))
    decreases |path|
  {
    UpPath(n, path);
    var p, i := Up(path), Last(path);
    if |path| > 1 {
      var e := n.entries[path[0]];
      KeySetUp(e.child, path[1..], key);
      assert p[1..] == Up(path[1..]) && i == Last(path[1..]);
      assert AllZero(path[1..]) <==> AllZero(p[1..]) && i == 0;
    }
  }

  // Splitting a node

  /** The first k records of a node, and the others. */
  function Head(n: Node, k: nat): Node
    requires k <= Count(n)
  {
    if n.Leaf? then Leaf(n.recs[..k]) else Index(n.entries[..k])
  }

  function Tail(n: Node, k: nat): Node
    requires k <= Count(n)
  {
    if n.Leaf? then Leaf(n.recs[k..]) else Index(n.entries[k..])
  }

  /** The second half of the records goes to a new node. */
  function Kept(n: Node): nat { Count(n) - Count(n) / 2 }

  function Inserted(es: seq<Entry>, i: nat, e: Entry): seq<Entry>
    requires i < |es|
  {
    es[..i + 1] + [e] + es[i + 1..]
  }

  function SplitEntries(es: seq<Entry>, i: nat): seq<Entry>
    requires i < |es| && Count(es[i].child) > 1
  {
    var n := es[i].child;
    var right := Tail(n, Kept(n));
    Inserted(es[i := Entry(es[i].key, Head(n, Kept(n)))], i, Entry(First(right), right))
  }

  lemma Halves(n: Node, h: nat)
    requires Wf(n, h) && Count(n) > 1
    ensures var l, r := Head(n, Kept(n)), Tail(n, Kept(n));
      && Wf(l, h) && Wf(r, h) && First(l) == First(n) && Count(r) == Count(n) / 2 && Count(l) + Count(r) == Count(n)
      && Contents(n) == Contents(l) + Contents(r) && Nodes(l) + Nodes(r) == Nodes(n) + 1
      && (n.Leaf? || Count(n) >= 4 ==> Splits(l) + Splits(r) + 2 == Splits(n))
  {
    hide ContentsOf, NodesOf, SplitsOf;
    if n.Index? {
      var k := Kept(n);
      ContentsConcat(n.entries[..k], n.entries[k..]);
      assert n.entries == n.entries[..k] + n.entries[k..];
    }
  }

  lemma InsertedContents(es: seq<Entry>, i: nat, e: Entry)
    requires i < |es|
    ensures ContentsOf(Inserted(es, i, e)) == ContentsOf(es[..i + 1]) + Contents(e.child) + ContentsOf(es[i + 1..])
    ensures ContentsOf(es[..i + 1]) == ContentsOf(es[..i]) + Contents(es[i].child)
    ensures NodesOf(Inserted(es, i, e)) == NodesOf(es) + Nodes(e.child)
    ensures SplitsOf(Inserted(es, i, e)) == SplitsOf(es) + Splits(e.child)
  {
    hide ContentsOf, NodesOf, SplitsOf, Contents, Nodes, Splits, Inserted;
    InsertedParts(es, i, e);
    ContentsSplit(Inserted(es, i, e), i + 1);
    ContentsConcat(es[..i + 1], es[i + 1..]);
    ContentsUpTo(es, i);
  }

  lemma InsertedParts(es: seq<Entry>, i: nat, e: Entry)
    requires i < |es|
    ensures var t := Inserted(es, i, e);
      |t| == |es| + 1 && t[i + 1] == e && t[..i + 1] == es[..i + 1] && t[i + 2..] == es[i + 1..]
    ensures es[..i + 1] + es[i + 1..] == es
  {
  }

  lemma ContentsUpTo(es: seq<Entry>, i: nat)
    requires i < |es|
    ensures ContentsOf(es[..i + 1]) == ContentsOf(es[..i]) + Contents(es[i].child)
  {
    hide ContentsOf, NodesOf, SplitsOf, Contents;
    ContentsSplit(es[..i + 1], i);
    assert es[..i + 1][..i] == es[..i] && es[..i + 1][i + 1..] == [];
    NoEntries();
  }

  lemma NoEntries()
    ensures ContentsOf([]) == []
  {
  }

  /** A split parent holds the same records in one more node, and has fewer splits left. */
  lemma SplitEntriesKeeps(p: Node, h: nat, i: nat)
    requires Wf(p, h) && p.Index? && i < |p.entries| && Count(p.entries[i].child) > 1
    requires p.entries[i].child.Leaf? || Count(p.entries[i].child) >= 4
    ensures var r := Index(SplitEntries(p.entries, i));
      && Wf(r, h) && First(r) == First(p) && Contents(r) == Contents(p) && Nodes(r) == Nodes(p) + 1 &&
        Splits(r) < Splits(p)
  {
    hide ContentsOf, NodesOf, SplitsOf;
    var es, n := p.entries, p.entries[i].child;
    assert EntryOk(es[i], h - 1);
    Halves(n, h - 1);
    var left, right := Head(n, Kept(n)), Tail(n, Kept(n));
    var mid := es[i := Entry(es[i].key, left)];
    PutEntries(es, i, mid[i]);
    ContentsSplit(es, i);
    InsertedContents(mid, i, Entry(First(right), right));
    assert mid[..i] == es[..i] && mid[i + 1..] == es[i + 1..];
    SplitEntriesWf(p, h, i);
  }

  lemma SplitEntriesWf(p: Node, h: nat, i: nat)
    requires Wf(p, h) && p.Index? && i < |p.entries| && Count(p.entries[i].child) > 1
    ensures Wf(Index(SplitEntries(p.entries, i)), h)
  {
    hide Contents;
    var es, n := p.entries, p.entries[i].child;
    assert EntryOk(es[i], h - 1);
    Halves(n, h - 1);
    var r := SplitEntries(es, i);
    forall j | 0 <= j < |r|
      ensures EntryOk(r[j], h - 1)
    {
      if j < i { assert r[j] == es[j]; } else if j > i + 1 { assert r[j] == es[j - 1]; }
    }
  }

  /** The tree after the node at a path has been split in two. */
  function Split(n: Node, path: seq<nat>): Node
    requires IsPath(n, path) && path != [] && Count(NodeAt(n, path)) > 1
  {
    UpPath(n, path);
    SetAt(n, Up(path), Index(SplitEntries(NodeAt(n, Up(path)).entries, Last(path))))
  }

  lemma SplitKeeps(n: Node, h: nat, path: seq<nat>)
    requires Wf(n, h) && IsPath(n, path) && path != [] && Count(NodeAt(n, path)) > 1
    requires NodeAt(n, path).Leaf? || Count(NodeAt(n, path)) >= 4
    ensures Wf(Split(n, path), h) && Contents(Split(n, path)) == Contents(n)
    ensures Nodes(Split(n, path)) == Nodes(n) + 1 && Splits(Split(n, path)) < Splits(n)
  {
    hide Contents, Nodes, Splits;
    var p, i := Up(path), Last(path);
    UpPath(n, path);
    NodeAtWf(n, h, p);
    var m := NodeAt(n, p);
    var r := Index(SplitEntries(m.entries, i));
    SplitEntriesKeeps(m, h - |p|, i);
    SetAtSame(n, h, p, r);
    PutWf(n, h, p, r);
    PutContents(n, p, r);
  }

  /** The new node is attached to the parent before the old one is cut. */
  lemma {:induction false} SetAtTwice(n: Node, path: seq<nat>, m: Node, es: seq<Entry>, k: nat)
    requires IsPath(n, path) && path != []
    requires Last(path) < |es| && es[Last(path)].child == m && k <= Count(m)
    ensures IsPath(n, Up(path))
    ensures var t := SetAt(n, Up(path), Index(es));
      && IsPath(t, path) && NodeAt(t, path) == m
      && SetAt(t, path, Head(m, k)) ==
        SetAt(n, Up(path), Index(es[Last(path) := Entry(es[Last(path)].key, Head(m, k))]))
    decreases |path|
  {
    UpPath(n, path);
    if |path| > 1 {
      SetAtTwice(n.entries[path[0]].child, path[1..], m, es, k);
      assert Up(path)[1..] == Up(path[1..]) && Last(path[1..]) == Last(path);
    }
  }

  lemma SplitInTwo(n: Node, path: seq<nat>)
    requires IsPath(n, path) && path != [] && Count(NodeAt(n, path)) > 1
    ensures IsPath(n, Up(path)) && NodeAt(n, Up(path)).Index? && Last(path) < |NodeAt(n, Up(path)).entries|
    ensures var m, es := NodeAt(n, path), NodeAt(n, Up(path)).entries;
      var right := Tail(m, Kept(m));
      var t := SetAt(n, Up(path), Index(Inserted(es, Last(path), Entry(First(right), right))));
      IsPath(t, path) && NodeAt(t, path) == m && SetAt(t, path, Head(m, Kept(m))) == Split(n, path)
  {
    UpPath(n, path);
    var m, es, i := NodeAt(n, path), NodeAt(n, Up(path)).entries, Last(path);
    var right := Tail(m, Kept(m));
    var e := Entry(First(right), right);
    SetAtTwice(n, path, m, Inserted(es, i, e), Kept(m));
    assert Inserted(es, i, e)[i := Entry(es[i].key, Head(m, Kept(m)))] == SplitEntries(es, i);
  }

  /** A root above the old one. */
  function Raised(n: Node): Node
    requires Count(n) > 0
  {
    Index([Entry(First(n), n)])
  }

  lemma RaisedKeeps(n: Node, h: nat)
    requires Wf(n, h)
    ensures Wf(Raised(n), h + 1) && Contents(Raised(n)) == Contents(n)
    ensures Nodes(Raised(n)) == Nodes(n) + 1 && Splits(Raised(n)) == Splits(n)
    ensures IsPath(Raised(n), [0]) && NodeAt(Raised(n), [0]) == n
  {
    var es := Raised(n).entries;
    ContentsSplit(es, 0);
    assert es[..0] == [] && es[1..] == [];
  }

  // Removing a record

  function Drop(n: Node, i: nat): Node
    requires i < Count(n)
  {
    if n.Leaf? then Leaf(n.recs[..i] + n.recs[i + 1..]) else Index(n.entries[..i] + n.entries[i + 1..])
  }

  /** The last record of a node takes the node with it. Only the root may end up empty,
      and it becomes a leaf. */
  function RemovedAt(n: Node, path: seq<nat>, i: nat): Node
    requires IsPath(n, path) && i < Count(NodeAt(n, path))
    decreases |path|
  {
    var m := NodeAt(n, path);
    if Count(m) > 1 then Put(n, path, Drop(m, i))
    else if path == [] then Leaf([])
    else UpPath(n, path); RemovedAt(n, Up(path), Last(path))
  }

  /** How many nodes that takes away. */
  function Deleted(n: Node, path: seq<nat>): nat
    requires IsPath(n, path)
    decreases |path|
  {
    if path == [] || Count(NodeAt(n, path)) > 1 then 0
    else UpPath(n, path); 1 + Deleted(n, Up(path))
  }

  /** What a record of a node holds. */
  function Part(n: Node, i: nat): seq<Rec>
    requires i < Count(n)
  {
    if n.Leaf? then [n.recs[i]] else Contents(n.entries[i].child)
  }

  function PartNodes(n: Node, i: nat): nat
    requires i < Count(n)
  {
    if n.Leaf? then 0 else Nodes(n.entries[i].child)
  }

  /** What comes before a record in its node, and after. */
  function Left(n: Node, i: nat): seq<Rec>
    requires i < Count(n)
  {
    if n.Leaf? then n.recs[..i] else ContentsOf(n.entries[..i])
  }

  function Right(n: Node, i: nat): seq<Rec>
    requires i < Count(n)
  {
    if n.Leaf? then n.recs[i + 1..] else ContentsOf(n.entries[i + 1..])
  }

  lemma DropKeeps(n: Node, h: nat, i: nat)
    requires Wf(n, h) && i < Count(n)
    ensures Contents(n) == Left(n, i) + Part(n, i) + Right(n, i)
    ensures Contents(Drop(n, i)) == Left(n, i) + Right(n, i)
    ensures Nodes(Drop(n, i)) == Nodes(n) - PartNodes(n, i)
    ensures Count(n) > 1 ==> Wf(Drop(n, i), h) && (i > 0 ==> First(Drop(n, i)) == First(n))
    ensures Count(n) == 1 ==> Left(n, i) == [] && Right(n, i) == [] && Nodes(n) == 1 + PartNodes(n, i)
  {
    hide ContentsOf, NodesOf;
    if n.Index? {
      ContentsSplit(n.entries, i);
      ContentsConcat(n.entries[..i], n.entries[i + 1..]);
      NoEntries();
      DropWf(n, h, i);
    }
  }

  lemma DropWf(n: Node, h: nat, i: nat)
    requires Wf(n, h) && i < Count(n) && n.Index?
    ensures Count(n) > 1 ==> Wf(Drop(n, i), h)
    ensures Count(n) == 1 ==> n.entries[..i] == [] && n.entries[i + 1..] == [] && NodesOf([]) == 0
  {
    var r := Drop(n, i).entries;
    forall j | 0 <= j < |r|
      ensures EntryOk(r[j], h - 1)
    {
      assert r[j] == n.entries[if j < i then j else j + 1];
    }
  }

  lemma {:induction false} BeforeUp(n: Node, path: seq<nat>)
    requires IsPath(n, path) && path != []
    ensures IsPath(n, Up(path)) && NodeAt(n, Up(path)).Index? && Last(path) < |NodeAt(n, Up(path)).entries|
    ensures NodeAt(n, path) == NodeAt(n, Up(path)).entries[Last(path)].child
    ensures Before(n, path) == Before(n, Up(path)) + Left(NodeAt(n, Up(path)), Last(path))
    ensures After(n, path) == Right(NodeAt(n, Up(path)), Last(path)) + After(n, Up(path))
    decreases |path|
  {
    hide ContentsOf;
    UpPath(n, path);
    if |path| > 1 {
      BeforeUp(n.entries[path[0]].child, path[1..]);
      assert Up(path)[1..] == Up(path[1..]) && Last(path[1..]) == Last(path);
    }
  }

  /** Exactly what the record held is gone. */
  lemma {:induction false} RemovedKeeps(n: Node, h: nat, path: seq<nat>, i: nat)
    requires Wf(n, h) && IsPath(n, path) && i < Count(NodeAt(n, path))
    ensures var r, m := RemovedAt(n, path, i), NodeAt(n, path);
      && (Wf(r, h) || r == Leaf([]))
      && Contents(r) == Before(n, path) + Left(m, i) + Right(m, i) + After(n, path)
      && Nodes(r) == Nodes(n) - Deleted(n, path) - PartNodes(m, i)
    decreases |path|
  {
    hide Contents, ContentsOf, Nodes, Put, Before, After;
    var m := NodeAt(n, path);
    NodeAtWf(n, h, path);
    DropKeeps(m, h - |path|, i);
    if Count(m) > 1 {
      PutWf(n, h, path, Drop(m, i));
      PutContents(n, path, Drop(m, i));
    } else if path == [] {
      RootOnly(n);
    } else {
      BeforeUp(n, path);
      RemovedKeeps(n, h, Up(path), Last(path));
    }
  }

  lemma RootOnly(n: Node)
    ensures Before(n, []) == [] && After(n, []) == [] && NodeAt(n, []) == n && Contents(Leaf([])) == [] &&
      Nodes(Leaf([])) == 1
  {
  }
}
