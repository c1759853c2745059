/** Collections of extended fields (xfield.c). A collection is a header with the number of
    fields and the size of their data, then the key of each field, and then the values,
    each padded to a multiple of eight bytes. */
module Xfield {
  import opened Bytes

  datatype Field = Field(ftype: byte, flags: byte, val: seq<byte>)

  // The format

  /** round_up(n, 8) */
  function Padded(n: nat): (p: nat)
    ensures n <= p < n + 8 && p % 8 == 0
  {
    (n + 7) / 8 * 8
  }

  predicate FieldOk(f: Field) { |f.val| < 65536 }

  predicate FieldsOk(fs: seq<Field>) { forall i :: 0 <= i < |fs| ==> FieldOk(fs[i]) }

  function Key(f: Field): (r: seq<byte>)
    requires FieldOk(f)
    ensures |r| == 4
  {
    [f.ftype, f.flags] + Le16(|f.val|)
  }

  function Zeros(n: nat): (r: seq<byte>)
    ensures |r| == n && forall k :: 0 <= k < n ==> r[k] == 0
  {
    seq(n, _ => 0)
  }

  /** Some bytes are a value and then its padding. */
  ghost predicate IsPadded(r: seq<byte>, val: seq<byte>) {
    && |val| <= |r| < |val| + 8 && |r| % 8 == 0
    && r[..|val|] == val && forall k :: |val| <= k < |r| ==> r[k] == 0
  }

  function Value(f: Field): (r: seq<byte>)
    ensures |r| == Padded(|f.val|)
  {
    f.val + Zeros(Padded(|f.val|) - |f.val|)
  }

  lemma ValueIs(f: Field)
    ensures IsPadded(Value(f), f.val)
  {
    hide Zeros;
  }

  function Keys(fs: seq<Field>): (r: seq<byte>)
    requires FieldsOk(fs)
    ensures |r| == 4 * |fs|
  {
    if fs == [] then [] else Keys(fs[..|fs| - 1]) + Key(fs[|fs| - 1])
  }

  function Values(fs: seq<Field>): seq<byte> {
    if fs == [] then [] else Values(fs[..|fs| - 1]) + Value(fs[|fs| - 1])
  }

  /** The whole collection; it only exists if the counts fit in their fields. */
  predicate Fits(fs: seq<Field>) { FieldsOk(fs) && |fs| < 65536 && |Values(fs)| < 65536 }

  function Encode(fs: seq<Field>): (r: seq<byte>)
    requires Fits(fs)
    ensures |r| == 4 + 4 * |fs| + |Values(fs)|
  {
    Le16(|fs|) + Le16(|Values(fs)|) + Keys(fs) + Values(fs)
  }

  /** The fields all have different types. */
  ghost predicate Distinct(fs: seq<Field>) {
    forall i, j :: 0 <= i < j < |fs| ==> fs[i].ftype != fs[j].ftype
  }

  /** The index of the field of some type, or -1. */
  function IndexOf(fs: seq<Field>, ftype: byte): (k: int)
    ensures -1 <= k < |fs| && (k >= 0 ==> fs[k].ftype == ftype)
    ensures k < 0 ==> forall i :: 0 <= i < |fs| ==> fs[i].ftype != ftype
  {
    if fs == [] then -1
    else
      var k := IndexOf(fs[..|fs| - 1], ftype);
      if k >= 0 then k else if fs[|fs| - 1].ftype == ftype then |fs| - 1 else -1
  }

  /** Setting a field: it takes the place of the one of the same type, or goes last. */
  function SetField(fs: seq<Field>, f: Field): seq<Field> {
    var k := IndexOf(fs, f.ftype);
    if k >= 0 then fs[k := f] else fs + [f]
  }

  // Where things are

  lemma {:induction false} KeysConcat(a: seq<Field>, b: seq<Field>)
    requires FieldsOk(a) && FieldsOk(b)
    ensures FieldsOk(a + b) && Keys(a + b) == Keys(a) + Keys(b) && Values(a + b) == Values(a) + Values(b)
  {
    hide Key, Value;
    if b == [] {
      assert a + b == a;
    } else {
      var init, x := b[..|b| - 1], b[|b| - 1];
      KeysConcat(a, init);
      assert (a + b)[..|a + b| - 1] == a + init && (a + b)[|a + b| - 1] == x;
      assert Keys(a) + Keys(init) + Key(x) == Keys(a) + (Keys(init) + Key(x));
      assert Values(a) + Values(init) + Value(x) == Values(a) + (Values(init) + Value(x));
    }
  }

  lemma Around(fs: seq<Field>, i: nat)
    requires FieldsOk(fs) && i < |fs|
    ensures FieldsOk(fs[..i]) && FieldsOk(fs[i + 1..]) && FieldOk(fs[i])
    ensures Keys(fs) == Keys(fs[..i]) + Key(fs[i]) + Keys(fs[i + 1..])
    ensures Values(fs) == Values(fs[..i]) + Value(fs[i]) + Values(fs[i + 1..])
  {
    hide Keys, Values, Key, Value;
    Apart(fs[..i], fs[i], fs[i + 1..]);
    Rejoin(fs, i);
  }

  lemma Rejoin(fs: seq<Field>, i: nat)
    requires i < |fs|
    ensures fs[..i] + [fs[i]] + fs[i + 1..] == fs
  {
  }

  lemma Apart(a: seq<Field>, f: Field, b: seq<Field>)
    requires FieldsOk(a) && FieldOk(f) && FieldsOk(b)
    ensures FieldsOk(a + [f] + b)
    ensures Keys(a + [f] + b) == Keys(a) + Key(f) + Keys(b)
    ensures Values(a + [f] + b) == Values(a) + Value(f) + Values(b)
  {
    hide Keys, Values, Key, Value, FieldsOk;
    OneField(f);
    KeysConcat(a, [f]);
    KeysConcat(a + [f], b);
  }

  lemma OneField(f: Field)
    requires FieldOk(f)
    ensures FieldsOk([f]) && Keys([f]) == Key(f) && Values([f]) == Value(f)
  {
    assert [f][..0] == [];
  }

  /** Where the value of a field starts. */
  function ValueAt(fs: seq<Field>, i: nat): nat
    requires i <= |fs|
  {
    4 + 4 * |fs| + |Values(fs[..i])|
  }

  lemma FieldAt(fs: seq<Field>, i: nat)
    requires Fits(fs) && i < |fs|
    ensures var e, at := Encode(fs), ValueAt(fs, i);
      && e[4 + 4 * i] == fs[i].ftype && e[4 + 4 * i + 1] == fs[i].flags && U16(e, 4 + 4 * i + 2) == |fs[i].val|
      && at + Padded(|fs[i].val|) <= |e| && e[at..at + Padded(|fs[i].val|)] == Value(fs[i])
      && IsPadded(e[at..at + Padded(|fs[i].val|)], fs[i].val)
      && ValueAt(fs, i + 1) == at + Padded(|fs[i].val|)
  {
    hide Keys, Values, Value, Padded;
    Around(fs, i);
    var e, at := Encode(fs), ValueAt(fs, i);
    var head := Le16(|fs|) + Le16(|Values(fs)|);
    var k := head + Keys(fs[..i]);
    assert e == k + (Key(fs[i]) + Keys(fs[i + 1..]) + Values(fs));
    assert e[|k|..|k| + 4] == Key(fs[i]);
    KeyParts(fs[i]);
    assert e[|k| + 1] == e[|k|..|k| + 4][1];
    assert e[|k|] == e[|k|..|k| + 4][0] && e[|k| + 2] == e[|k|..|k| + 4][2] && e[|k| + 3] == e[|k|..|k| + 4][3];
    var v := head + Keys(fs) + Values(fs[..i]);
    assert e == v + Value(fs[i]) + Values(fs[i + 1..]);
    NextValue(fs, i);
    ValueIs(fs[i]);
  }

  lemma KeyParts(f: Field)
    requires FieldOk(f)
    ensures Key(f)[0] == f.ftype && Key(f)[1] == f.flags && Key(f)[2] as int + 256 * Key(f)[3] as int == |f.val|
  {
  }

  lemma NextValue(fs: seq<Field>, i: nat)
    requires i < |fs|
    ensures |Values(fs[..i + 1])| == |Values(fs[..i])| + Padded(|fs[i].val|)
  {
    assert fs[..i + 1][..i] == fs[..i];
  }

  lemma HeaderAt(fs: seq<Field>)
    requires Fits(fs)
    ensures |Encode(fs)| >= 4 && U16(Encode(fs), 0) == |fs| && U16(Encode(fs), 2) == |Values(fs)|
  {
    var e := Encode(fs);
    assert e[0] == Le16(|fs|)[0] && e[1] == Le16(|fs|)[1];
    assert e[2] == Le16(|Values(fs)|)[0] && e[3] == Le16(|Values(fs)|)[1];
  }

  // Finding a field

  /** apfs_find_xfield() */
  method FindXfield(buf: seq<byte>, ftype: byte, ghost fs: seq<Field>) returns (len: nat, at: nat)
    ensures at + len <= |buf|
    ensures Fits(fs) && buf == Encode(fs) && IndexOf(fs, ftype) >= 0 ==>
            at == ValueAt(fs, IndexOf(fs, ftype)) && len == Padded(|fs[IndexOf(fs, ftype)].val|) &&
            buf[at..at + len] == Value(fs[IndexOf(fs, ftype)]) &&
            IsPadded(buf[at..at + len], fs[IndexOf(fs, ftype)].val)
    ensures Fits(fs) && buf == Encode(fs) && IndexOf(fs, ftype) < 0 ==> len == 0
  {
    hide Encode, Values, Keys, IndexOf, Padded, Value;
    len, at := 0, 0;
    ghost var good := Fits(fs) && buf == Encode(fs);
    if good { HeaderAt(fs); EncodeLen(fs); }
    if |buf| == 0 {
      return;
    }
    var rest: int := |buf| - 4;
    if rest < 0 {
      return;
    }
    var count := U16(buf, 0);
    rest := rest - count * 4;
    if rest < 0 {
      return;
    }
    var i := 0;
    if good { ValueStart(fs); }
    while i < count
      invariant i <= count && 0 <= rest && 4 + 4 * count + rest <= |buf|
      invariant good ==> count == |fs| && |buf| - rest == ValueAt(fs, i) && forall j :: 0 <= j < i ==>
        fs[j].ftype != ftype
    {
      if good { FieldAt(fs, i); }
      var xlen := Padded(U16(buf, 4 + 4 * i + 2));
      if xlen > rest {
        return;
      }
      if buf[4 + 4 * i] == ftype {
        len, at := xlen, |buf| - rest;
        if good { FirstIndex(fs, ftype, i); }
        return;
      }
      rest := rest - xlen;
      i := i + 1;
    }
    if good { NoIndex(fs, ftype); }
  }

  lemma EncodeLen(fs: seq<Field>)
    requires Fits(fs)
    ensures |Encode(fs)| == 4 + 4 * |fs| + |Values(fs)|
  {
  }

  lemma ValueStart(fs: seq<Field>)
    ensures ValueAt(fs, 0) == 4 + 4 * |fs| && ValueAt(fs, |fs|) == 4 + 4 * |fs| + |Values(fs)|
  {
    assert fs[..0] == [] && fs[..|fs|] == fs;
  }

  lemma {:induction false} FirstIndex(fs: seq<Field>, ftype: byte, i: nat)
    requires i < |fs| && fs[i].ftype == ftype && forall j :: 0 <= j < i ==> fs[j].ftype != ftype
    ensures IndexOf(fs, ftype) == i
  {
    if i < |fs| - 1 { FirstIndex(fs[..|fs| - 1], ftype, i); }
  }

  lemma NoIndex(fs: seq<Field>, ftype: byte)
    requires forall j :: 0 <= j < |fs| ==> fs[j].ftype != ftype
    ensures IndexOf(fs, ftype) < 0
  {
  }

  // Setting a field

  lemma SpliceMid(p: seq<byte>, q: seq<byte>, r: seq<byte>, q2: seq<byte>)
    requires |q| == |q2|
    ensures Splice(p + q + r, |p|, q2) == p + q2 + r
  {
  }

  /** The new key and value go in, and what follows is moved to make room or take it. */
  lemma Resized(buf: seq<byte>, head: seq<byte>, k: seq<byte>, mid: seq<byte>, v: seq<byte>, tail: seq<byte>,
                k2: seq<byte>, v2: seq<byte>)
    requires buf == head + k + mid + v + tail && |k| == |k2| && |head + k + mid + v2| <= |buf|
    ensures var at, rest := |head + k + mid|, |buf| - |head + k + mid| - if |v| < |v2| then |v2| else |v|;
      var s1 := Splice(buf, |head|, k2);
      && at + |v| + rest <= |buf| && at + |v2| + rest <= |buf|
      && Splice(Splice(s1, at + |v2|, s1[at + |v|..at + |v| + rest]), at, v2)[..at + |v2| + rest] ==
        head + k2 + mid + v2 + tail[..rest]
  {
    var at, rest := |head + k + mid|, |buf| - |head + k + mid| - if |v| < |v2| then |v2| else |v|;
    SpliceMid(head, k, mid + v + tail, k2);
    assert head + k + (mid + v + tail) == buf;
    var s1 := Splice(buf, |head|, k2);
    assert s1 == head + k2 + (mid + v + tail);
    assert s1[at + |v|..at + |v| + rest] == tail[..rest];
    var s2 := Splice(s1, at + |v2|, tail[..rest]);
    assert s2[..at] == head + k2 + mid;
  }

  lemma SpliceIs(s: seq<byte>, d: nat, mid: seq<byte>)
    requires d + |mid| <= |s|
    ensures Splice(s, d, mid)[d..d + |mid|] == mid
    ensures forall k :: 0 <= k < |s| && !(d <= k < d + |mid|) ==> Splice(s, d, mid)[k] == s[k]
  {
  }

  lemma SpliceTwice(s: seq<byte>, d: nat, a: seq<byte>, b: seq<byte>)
    requires d + |a| + |b| <= |s|
    ensures Splice(Splice(s, d, a), d + |a|, b) == Splice(s, d, a + b)
  {
  }

  /** The value of a field and its padding. */
  method PutValue(buf: array<byte>, at: nat, f: Field)
    requires at + Padded(|f.val|) <= buf.Length
    modifies buf
    ensures buf[..] == Splice(old(buf[..]), at, Value(f)) && IsPadded(buf[at..at + Padded(|f.val|)], f.val)
    ensures forall k :: 0 <= k < buf.Length && !(at <= k < at + Padded(|f.val|)) ==> buf[k] == old(buf[k])
  {
    hide Splice, Padded;
    SpliceIs(buf[..], at, Value(f));
    ValueIs(f);
    SpliceTwice(buf[..], at, f.val, Zeros(Padded(|f.val|) - |f.val|));
    MemCopy(buf, at, f.val);
    MemCopy(buf, at + |f.val|, Zeros(Padded(|f.val|) - |f.val|));
  }

  /** A buffer after the key at one place and the value at another are replaced, and what
      follows the value is moved along. */
  ghost predicate ResizedTo(was: seq<byte>, buf: seq<byte>, keyAt: nat, at: nat, curr: nat, f: Field)
    requires FieldOk(f) && keyAt + 4 <= at && at + curr <= |was|
  {
    var padded := Padded(|f.val|);
    var rest := Remaining(|was| - at - curr, curr, padded);
    && rest >= 0 && at + padded + rest <= |was| == |buf|
    && buf[..at + padded + rest] == was[..keyAt] + Key(f) + was[keyAt + 4..at] + Value(f) + was[at + curr..][..rest]
  }

  /** The part of apfs_insert_xfield() for a field that already exists. */
  method ResizeField(buf: array<byte>, keyAt: nat, at: nat, curr: nat, f: Field) returns (ok: bool)
    requires FieldOk(f) && keyAt + 4 <= at && at + curr <= buf.Length
    modifies buf
    ensures ok <==> at + Padded(|f.val|) <= buf.Length
    ensures ok ==> ResizedTo(old(buf[..]), buf[..], keyAt, at, curr, f)
  {
    hide Splice, Padded, Key, Value, ResizedTo;
    var padded := Padded(|f.val|);
    ghost var was := buf[..];
    MemCopy(buf, keyAt, Key(f));
    if padded > buf.Length - at {
      return false;
    }
    var rest := buf.Length - at - if padded < curr then curr else padded;
    ResizeDone(was, buf[..], keyAt, at, curr, f, rest);
    MemMove(buf, at + padded, at + curr, rest);
    PutValue(buf, at, f);
    ok := true;
  }

  lemma ResizeDone(was: seq<byte>, s1: seq<byte>, keyAt: nat, at: nat, curr: nat, f: Field, rest: nat)
    requires FieldOk(f) && keyAt + 4 <= at && at + curr <= |was| && at + Padded(|f.val|) <= |was|
    requires s1 == Splice(was, keyAt, Key(f)) && rest == |was| - at - if Padded(|f.val|) < curr then curr
      else Padded(|f.val|)
    ensures at + Padded(|f.val|) + rest <= |was| && at + curr + rest <= |was|
    ensures ResizedTo(was, Splice(Splice(s1, at + Padded(|f.val|), s1[at + curr..at + curr + rest]), at, Value(f)),
      keyAt, at, curr, f)
  {
    hide Splice, Padded, Key, Value;
    FiveParts(was, keyAt, at, curr);
    var head, k, mid, v, tail := was[..keyAt], was[keyAt..keyAt + 4], was[keyAt + 4..at], was[at..at + curr],
      was[at + curr..];
    assert |head| == keyAt && |head + k + mid| == at && |v| == curr;
    Resized(was, head, k, mid, v, tail, Key(f), Value(f));
  }

  /** How much of what follows a value stays in the buffer after it is resized. */
  function Remaining(tail: nat, curr: nat, padded: nat): int {
    if padded <= curr then tail else tail - (padded - curr)
  }

  /** The part of apfs_insert_xfield() for a new field. */
  method AppendField(buf: array<byte>, meta: nat, valLen: nat, f: Field, ghost head: seq<byte>,
                     ghost vals: seq<byte>, ghost tail: seq<byte>)
    returns (ok: bool)
    requires FieldOk(f) && buf[..] == head + vals + tail && meta == |head| && valLen == |vals|
    modifies buf
    ensures ok <==> meta + 4 + valLen + Padded(|f.val|) <= buf.Length
    ensures ok ==> buf[..meta + 4 + valLen + Padded(|f.val|)] == head + Key(f) + vals + Value(f)
  {
    hide Splice, Padded, Key, Value;
    var rest := buf.Length - meta - valLen - 4;
    if rest < 0 {
      return false;
    }
    ghost var was := buf[..];
    MemMove(buf, meta + 4, meta, buf.Length - meta - 4);
    MemCopy(buf, meta, Key(f));
    Shifted(was, head, vals, tail, Key(f));
    var padded := Padded(|f.val|);
    if padded > rest {
      return false;
    }
    Appended(buf[..], head + Key(f) + vals, Value(f));
    PutValue(buf, buf.Length - rest, f);
    ok := true;
  }

  lemma Shifted(buf: seq<byte>, head: seq<byte>, vals: seq<byte>, tail: seq<byte>, k: seq<byte>)
    requires buf == head + vals + tail && |k| == 4 && |head| + 4 + |vals| <= |buf|
    ensures var n := |buf| - |head| - 4;
      Splice(Splice(buf, |head| + 4, buf[|head|..|head| + n]), |head|, k)[..|head| + 4 + |vals|] == head + k + vals
  {
    var n, m, rest := |buf| - |head| - 4, |head|, vals + tail;
    assert buf == head + rest && buf[m..m + n] == rest[..n];
    var s1 := Splice(buf, m + 4, rest[..n]);
    assert s1 == buf[..m + 4] + rest[..n];
    assert s1[..m] == head && s1[m + 4..] == rest[..n];
    assert Splice(s1, m, k) == head + k + rest[..n];
    assert rest[..n] == vals + rest[|vals|..n];
  }

  lemma Appended(buf: seq<byte>, p: seq<byte>, v: seq<byte>)
    requires |p| + |v| <= |buf| && buf[..|p|] == p
    ensures Splice(buf, |p|, v)[..|p| + |v|] == p + v
  {
  }


  /** Everything in a collection but the header. */
  function Body(fs: seq<Field>): seq<byte>
    requires FieldsOk(fs)
  {
    Keys(fs) + Values(fs)
  }

  lemma NewHeader(buf: seq<byte>, h: seq<byte>, body: seq<byte>)
    requires |h| == 4 && 4 + |body| <= |buf| && buf[4..4 + |body|] == body
    ensures Splice(buf, 0, h)[..4 + |body|] == h + body
  {
  }

  /** The parts of a collection around one of the fields. */
  lemma BodyAround(fs: seq<Field>, i: nat)
    requires FieldsOk(fs) && i < |fs|
    ensures FieldsOk(fs[..i]) && FieldsOk(fs[i + 1..])
    ensures Body(fs) ==
      Keys(fs[..i]) + Key(fs[i]) + (Keys(fs[i + 1..]) + Values(fs[..i])) + Value(fs[i]) + Values(fs[i + 1..])
  {
    hide Keys, Values, Key, Value;
    Around(fs, i);
  }

  lemma BodyReplaced(fs: seq<Field>, i: nat, f: Field)
    requires FieldsOk(fs) && i < |fs| && FieldOk(f)
    ensures FieldsOk(fs[i := f]) && FieldsOk(fs[..i]) && FieldsOk(fs[i + 1..])
    ensures Body(fs[i := f]) ==
      Keys(fs[..i]) + Key(f) + (Keys(fs[i + 1..]) + Values(fs[..i])) + Value(f) + Values(fs[i + 1..])
    ensures |Values(fs[i := f])| == |Values(fs)| - Padded(|fs[i].val|) + Padded(|f.val|)
  {
    hide Keys, Values, Key, Value, Padded;
    var t := fs[i := f];
    assert t[..i] == fs[..i] && t[i + 1..] == fs[i + 1..];
    BodyAround(t, i);
    Around(t, i);
    Around(fs, i);
  }

  lemma BodyAppended(fs: seq<Field>, f: Field)
    requires FieldsOk(fs) && FieldOk(f)
    ensures FieldsOk(fs + [f]) && Body(fs + [f]) == Keys(fs) + Key(f) + Values(fs) + Value(f)
    ensures |Values(fs + [f])| == |Values(fs)| + Padded(|f.val|)
  {
    hide Keys, Values, Key, Value, Padded;
    OneField(f);
    KeysConcat(fs, [f]);
  }

  /** The buffer holds a collection; the rest of it does not matter. */
  ghost predicate Holds(buf: seq<byte>, fs: seq<Field>) {
    Fits(fs) && |Encode(fs)| <= |buf| && buf[..|Encode(fs)|] == Encode(fs)
  }

  lemma HoldsIff(buf: seq<byte>, fs: seq<Field>)
    requires Fits(fs)
    ensures Holds(buf, fs) <==>
            4 + |Body(fs)| <= |buf| && buf[..4] == Le16(|fs|) + Le16(|Values(fs)|) && buf[4..4 + |Body(fs)|] == Body(fs)
  {
    hide Keys, Values, Le16;
    var h, b := Le16(|fs|) + Le16(|Values(fs)|), Body(fs);
    assert Encode(fs) == h + b;
    if 4 + |b| <= |buf| {
      assert buf[..4 + |b|] == buf[..4] + buf[4..4 + |b|];
      assert (h + b)[..4] == h && (h + b)[4..] == b;
    }
  }

  /** What apfs_insert_xfield() should do to a buffer. The size of the data is kept in 16
      bits, so that the length is right exactly when it fits there. */
  ghost predicate Inserted(buf: seq<byte>, fs: seq<Field>, f: Field, len: nat)
    requires Fits(fs) && |fs| < 65535 && FieldOk(f)
  {
    var t := SetField(fs, f);
    && (Fits(t) ==> len == if |Encode(t)| <= |buf| then |Encode(t)| else 0)
    && (Fits(t) && len > 0 ==> Holds(buf, t))
    && (len > 0 ==> (len == 4 + 4 * |t| + |Values(t)| <==> Fits(t)))
    && (len > 0 ==> len == 4 + 4 * |t| + |Values(t)| % 65536)
    && (4 + 4 * |t| + |Values(t)| <= |buf| ==> len > 0)
  }

  /** The end of apfs_insert_xfield(). */
  method UpdateHeader(buf: array<byte>, count: nat, used: nat) returns (len: nat)
    requires used < 65536 && 4 <= buf.Length
    modifies buf
    ensures len == if used + 4 + 4 * count > buf.Length then 0 else used + 4 + 4 * count
    ensures buf[..] == if len == 0 then old(buf[..]) else Splice(old(buf[..]), 0, Le16(count % 65536) + Le16(used))
  {
    hide Splice, Le16;
    if used + 4 + 4 * count > buf.Length {
      return 0;
    }
    MemCopy(buf, 0, Le16(count % 65536) + Le16(used));
    len := used + 4 + 4 * count;
  }

  lemma EndOfInsert(buf: seq<byte>, t: seq<Field>, len: nat, buf2: seq<byte>)
    requires FieldsOk(t) && |t| < 65536 && |buf2| == |buf|
    requires 4 + |Body(t)| <= |buf| ==> buf[4..4 + |Body(t)|] == Body(t)
    requires var used := |Values(t)| % 65536;
      && len == (if used + 4 + 4 * |t| > |buf| then 0 else used + 4 + 4 * |t|)
      && (len > 0 ==> buf2 == Splice(buf, 0, Le16(|t|) + Le16(used)))
    ensures Fits(t) ==> len == if |Encode(t)| <= |buf| then |Encode(t)| else 0
    ensures Fits(t) && len > 0 ==> Holds(buf2, t)
    ensures len > 0 ==> (len == 4 + 4 * |t| + |Values(t)| <==> Fits(t))
    ensures len > 0 ==> len == 4 + 4 * |t| + |Values(t)| % 65536
    ensures 4 + 4 * |t| + |Values(t)| <= |buf| ==> len > 0
  {
    hide Keys, Values, Le16, Splice;
    if Fits(t) {
      EncodeLen(t);
      if len > 0 {
        NewHeader(buf, Le16(|t|) + Le16(|Values(t)|), Body(t));
        assert Encode(t) == Le16(|t|) + Le16(|Values(t)|) + Body(t);
      }
    }
  }

  /** The parts of a buffer with a collection, around one of the fields. */
  lemma BufferParts(buf: seq<byte>, fs: seq<Field>, i: nat)
    requires Holds(buf, fs) && i < |fs|
    ensures FieldsOk(fs[..i]) && FieldsOk(fs[i + 1..])
    ensures var head, mid := buf[..4] + Keys(fs[..i]), Keys(fs[i + 1..]) + Values(fs[..i]);
      && |Encode(fs)| <= |buf| && |head| == 4 + 4 * i && |head| + 4 + |mid| == ValueAt(fs, i)
      && buf == head + Key(fs[i]) + mid + Value(fs[i]) + (Values(fs[i + 1..]) + buf[|Encode(fs)|..])
  {
    hide Keys, Values, Key, Value, Encode, Le16;
    HoldsIff(buf, fs);
    EncodeLen(fs);
    BodyAround(fs, i);
    var b, n := Body(fs), |Encode(fs)|;
    assert buf == buf[..4] + b + buf[n..] by { assert n == 4 + |b|; }
  }

  lemma ResizeEnd(buf: seq<byte>, h: seq<byte>, fs: seq<Field>, i: nat, f: Field, tail: seq<byte>, rest: nat)
    requires FieldsOk(fs) && i < |fs| && FieldOk(f) && FieldsOk(fs[..i]) && FieldsOk(fs[i + 1..]) && |h| == 4
    requires rest <= |Values(fs[i + 1..]) + tail|
    requires var p := h + Keys(fs[..i]) + Key(f) + (Keys(fs[i + 1..]) + Values(fs[..i])) + Value(f)
        + (Values(fs[i + 1..]) + tail)[..rest];
      |p| <= |buf| && buf[..|p|] == p
    requires |Values(fs[i + 1..])| <= rest
    ensures FieldsOk(fs[i := f]) && 4 + |Body(fs[i := f])| <= |buf| &&
      buf[4..4 + |Body(fs[i := f])|] == Body(fs[i := f])
  {
    hide Keys, Values, Key, Value, Padded, Body;
    BodyReplaced(fs, i, f);
    var v, b := Values(fs[i + 1..]), Body(fs[i := f]);
    var p := h + Keys(fs[..i]) + Key(f) + (Keys(fs[i + 1..]) + Values(fs[..i])) + Value(f) + (v + tail)[..rest];
    assert (v + tail)[..rest] == v + tail[..rest - |v|];
    assert p == h + b + tail[..rest - |v|];
    PrefixSlice(buf, p, 4, 4 + |b|);
    assert p[4..4 + |b|] == b;
  }

  lemma PrefixSlice(buf: seq<byte>, p: seq<byte>, lo: nat, hi: nat)
    requires lo <= hi <= |p| <= |buf| && buf[..|p|] == p
    ensures buf[lo..hi] == p[lo..hi]
  {
    forall j | lo <= j < hi
      ensures buf[j] == p[j]
    {
      assert buf[..|p|][j] == buf[j];
    }
  }

  lemma HoldsFits(buf: seq<byte>, fs: seq<Field>)
    requires Holds(buf, fs)
    ensures Fits(fs)
  {
  }

  /** The scan has found the field of the same type. */
  ghost predicate FoundAt(buf: seq<byte>, fs: seq<Field>, f: Field, i: nat, at: nat, curr: nat, used: nat, count: nat) {
    && Holds(buf, fs) && |fs| == count < 65535 && IndexOf(fs, f.ftype) == i && at == ValueAt(fs, i)
    && curr == Padded(|fs[i].val|) && used == |Values(fs)|
  }

  /** apfs_insert_xfield() once it has found a field of the same type. */
  method InsertExisting(buf: array<byte>, i: nat, at: nat, curr: nat, used: nat, count: nat, f: Field,
                        ghost fs: seq<Field>)
    returns (len: nat)
    requires FieldOk(f) && used < 65536 && count < 65536 && i < count && 4 + 4 * count <= at && at + curr <= buf.Length
    modifies buf
    ensures old(FoundAt(buf[..], fs, f, i, at, curr, used, count)) ==> Inserted(buf[..], fs, f, len)
  {
    hide Encode, Values, Keys, Key, Value, IndexOf, Padded, Splice, Le16, Holds, Body, FoundAt, Inserted, ResizedTo,
      FieldsOk, Fits, SetField, ValueAt;
    ghost var was := buf[..];
    var ok := ResizeField(buf, 4 + 4 * i, at, curr, f);
    if !ok {
      if FoundAt(was, fs, f, i, at, curr, used, count) { ExistingFails(was, buf[..], fs, f, i, at, curr, used, count); }
      return 0;
    }
    ghost var mid := buf[..];
    len := UpdateHeader(buf, count, (used + 65536 + Padded(|f.val|) - curr) % 65536);
    if FoundAt(was, fs, f, i, at, curr, used, count) {
      ExistingDone(was, mid, buf[..], fs, f, i, at, curr, used, count, len);
    }
  }

  lemma FiveParts(s: seq<byte>, k0: nat, at: nat, curr: nat)
    requires k0 + 4 <= at && at + curr <= |s|
    ensures s == s[..k0] + s[k0..k0 + 4] + s[k0 + 4..at] + s[at..at + curr] + s[at + curr..]
  {
  }

  lemma ExistingFails(was: seq<byte>, buf: seq<byte>, fs: seq<Field>, f: Field, i: nat, at: nat, curr: nat,
                      used: nat, count: nat)
    requires FoundAt(was, fs, f, i, at, curr, used, count) && FieldOk(f) && |buf| == |was| &&
      at + Padded(|f.val|) > |was|
    ensures Fits(fs) && |fs| < 65535 && Inserted(buf, fs, f, 0)
  {
    hide Encode, Values, Keys, Key, Value, IndexOf, Padded, Holds;
    HoldsFits(was, fs);
    ExistingSizes(was, fs, i, f, at);
    TooLong(SetField(fs, f), buf);
  }

  lemma ExistingDone(was: seq<byte>, mid: seq<byte>, buf: seq<byte>, fs: seq<Field>, f: Field, i: nat, at: nat,
                     curr: nat, used: nat,
                     count: nat, len: nat)
    requires FoundAt(was, fs, f, i, at, curr, used, count) && FieldOk(f) && |buf| == |mid| == |was|
    requires 4 + 4 * i + 4 <= at && at + curr <= |was| && ResizedTo(was, mid, 4 + 4 * i, at, curr, f)
    requires var used2 := (used + 65536 + Padded(|f.val|) - curr) % 65536;
      && len == (if used2 + 4 + 4 * count > |was| then 0 else used2 + 4 + 4 * count) && count < 65536
      && buf == if len == 0 then mid else Splice(mid, 0, Le16(count) + Le16(used2))
    ensures Fits(fs) && |fs| < 65535 && Inserted(buf, fs, f, len)
  {
    hide Encode, Values, Keys, Key, Value, IndexOf, Padded, Splice, Le16, Holds, Body, ResizedTo;
    HoldsFits(was, fs);
    ExistingSizes(was, fs, i, f, at);
    ExistingBody(was, mid, fs, i, f, at, curr);
    EndOfInsert(mid, fs[i := f], len, buf);
  }

  lemma TooLong(t: seq<Field>, buf: seq<byte>)
    requires FieldsOk(t)
    ensures Fits(t) ==> |Encode(t)| == 4 + 4 * |t| + |Values(t)|
  {
  }

  /** The keys and values are in place, if they fit in the buffer. */
  lemma ExistingBody(was: seq<byte>, buf: seq<byte>, fs: seq<Field>, i: nat, f: Field, at: nat, curr: nat)
    requires Holds(was, fs) && i < |fs| && FieldOk(f) && at == ValueAt(fs, i) && curr == Padded(|fs[i].val|) &&
      |buf| == |was|
    requires 4 + 4 * i + 4 <= at && at + curr <= |was| && ResizedTo(was, buf, 4 + 4 * i, at, curr, f)
    ensures FieldsOk(fs[i := f])
    ensures 4 + |Body(fs[i := f])| <= |buf| ==> buf[4..4 + |Body(fs[i := f])|] == Body(fs[i := f])
  {
    hide Encode, Values, Keys, Key, Value, Padded, Le16, Holds, Body;
    HoldsFits(was, fs);
    BodyReplaced(fs, i, f);
    PartsAt(was, fs, i, at, curr);
    BodyLen(fs, i, f);
    if 4 + |Body(fs[i := f])| <= |buf| {
      ResizeEnd(buf, was[..4], fs, i, f, was[|Encode(fs)|..], Remaining(|was| - at - curr, curr, Padded(|f.val|)));
    }
  }

  /** What the slices of a buffer around a field are. */
  lemma PartsAt(was: seq<byte>, fs: seq<Field>, i: nat, at: nat, curr: nat)
    requires Holds(was, fs) && i < |fs| && at == ValueAt(fs, i) && curr == Padded(|fs[i].val|)
    requires 4 + 4 * i + 4 <= at && at + curr <= |was|
    ensures Fits(fs) && FieldsOk(fs[..i]) && FieldsOk(fs[i + 1..]) && |Encode(fs)| <= |was|
    ensures was[..4 + 4 * i] == was[..4] + Keys(fs[..i]) &&
      was[4 + 4 * i + 4..at] == Keys(fs[i + 1..]) + Values(fs[..i])
    ensures was[at + curr..] == Values(fs[i + 1..]) + was[|Encode(fs)|..]
  {
    hide Encode, Values, Keys, Key, Value, Padded, Le16, Holds;
    HoldsFits(was, fs);
    BufferParts(was, fs, i);
    var head, mid := was[..4] + Keys(fs[..i]), Keys(fs[i + 1..]) + Values(fs[..i]);
    Slices(was, head, Key(fs[i]), mid, Value(fs[i]), Values(fs[i + 1..]) + was[|Encode(fs)|..]);
  }

  lemma BodyLen(fs: seq<Field>, i: nat, f: Field)
    requires FieldsOk(fs) && i < |fs| && FieldOk(f) && FieldsOk(fs[i := f])
    ensures 4 + |Body(fs[i := f])| == ValueAt(fs, i) + Padded(|f.val|) + |Values(fs[i + 1..])|
  {
    hide Values, Keys, Key, Value, Padded;
    BodyReplaced(fs, i, f);
  }

  lemma Slices(s: seq<byte>, a: seq<byte>, b: seq<byte>, c: seq<byte>, d: seq<byte>, e: seq<byte>)
    requires s == a + b + c + d + e
    ensures s[..|a|] == a && s[|a| + |b|..|a| + |b| + |c|] == c && s[|a| + |b| + |c| + |d|..] == e
  {
  }

  lemma ExistingSizes(was: seq<byte>, fs: seq<Field>, i: nat, f: Field, at: nat)
    requires Holds(was, fs) && i < |fs| && FieldOk(f) && at == ValueAt(fs, i) && IndexOf(fs, f.ftype) == i
    ensures FieldsOk(SetField(fs, f)) && SetField(fs, f) == fs[i := f]
    ensures |Values(fs[i := f])| == |Values(fs)| - Padded(|fs[i].val|) + Padded(|f.val|)
    ensures at + Padded(|f.val|) <= 4 + 4 * |fs| + |Values(fs[i := f])|
  {
    hide Encode, Values, Keys, Key, Value, Padded;
    BodyReplaced(fs, i, f);
    Around(fs, i);
    var t := fs[i := f];
    Around(t, i);
    assert t[..i] == fs[..i];
  }

  lemma NewDone(was: seq<byte>, mid: seq<byte>, buf: seq<byte>, fs: seq<Field>, f: Field, used: nat, count: nat,
                ok: bool, len: nat)
    requires Holds(was, fs) && |fs| == count < 65535 && IndexOf(fs, f.ftype) < 0 && used == |Values(fs)| && FieldOk(f)
    requires |buf| == |mid| == |was| && 4 + 4 * count + |Values(fs)| <= |was|
    requires ok <==> 4 + 4 * count + 4 + |Values(fs)| + Padded(|f.val|) <= |was|
    requires ok ==>
      && mid[..4 + 4 * count + 4 + |Values(fs)| + Padded(|f.val|)] ==
        was[..4 + 4 * count] + Key(f) + Values(fs) + Value(f)
      && var used2 := (used + Padded(|f.val|)) % 65536;
      && len == (if used2 + 4 + 4 * (count + 1) > |was| then 0 else used2 + 4 + 4 * (count + 1))
      && buf == if len == 0 then mid else Splice(mid, 0, Le16(count + 1) + Le16(used2))
    requires !ok ==> len == 0
    ensures Fits(fs) && Inserted(buf, fs, f, len)
  {
    hide Encode, Values, Keys, Key, Value, Padded, Splice, Le16, IndexOf;
    var t := fs + [f];
    assert SetField(fs, f) == t;
    BodyAppended(fs, f);
    TooLong(t, buf);
    HoldsKeys(was, fs);
    if ok {
      var p := was[..4 + 4 * count] + Key(f) + Values(fs) + Value(f);
      assert p == was[..4] + Body(t) by { assert was[..4 + 4 * count] == was[..4] + Keys(fs); }
      PrefixSlice(mid, p, 4, |p|);
      assert p[4..] == Body(t);
      EndOfInsert(mid, t, len, buf);
    }
  }

  lemma HoldsKeys(buf: seq<byte>, fs: seq<Field>)
    requires Holds(buf, fs)
    ensures var n := 4 + 4 * |fs|;
      n + |Values(fs)| <= |buf| && buf[..n] == buf[..4] + Keys(fs) && buf[n..n + |Values(fs)|] == Values(fs)
  {
    hide Keys, Values, Encode, Le16;
    HoldsIff(buf, fs);
    var n := 4 + 4 * |fs|;
    PrefixSlice(buf[4..], Body(fs), 0, 4 * |fs|);
    assert buf[4..4 + |Body(fs)|] == buf[4..][..|Body(fs)|];
    PrefixSlice(buf[4..], Body(fs), 4 * |fs|, |Body(fs)|);
    assert Body(fs)[..4 * |fs|] == Keys(fs) && Body(fs)[4 * |fs|..] == Values(fs);
    assert buf[..n] == buf[..4] + buf[4..][..4 * |fs|];
  }

  /** apfs_insert_xfield() once it has found no field of the same type. */
  method InsertNew(buf: array<byte>, end: nat, used: nat, count: nat, f: Field, ghost fs: seq<Field>) returns (len: nat)
    requires FieldOk(f) && used < 65536 && 4 + 4 * count <= end <= buf.Length
    modifies buf
    ensures old(Holds(buf[..], fs)) && |fs| == count < 65535 && IndexOf(fs, f.ftype) < 0 ==>
      used == |Values(fs)| && end == ValueAt(fs, |fs|) ==> Fits(fs) && Inserted(buf[..], fs, f, len)
  {
    hide Encode, Values, Keys, Key, Value, IndexOf, Padded, Splice, Le16, Holds, Inserted;
    ghost var was := buf[..];
    var meta := 4 + 4 * count;
    ThreeParts(was, meta, end);
    var ok := AppendField(buf, meta, end - meta, f, was[..meta], was[meta..end], was[end..]);
    ghost var mid := buf[..];
    len := 0;
    if ok {
      len := UpdateHeader(buf, count + 1, (used + Padded(|f.val|)) % 65536);
    }
    if Holds(was, fs) && |fs| == count < 65535 && IndexOf(fs, f.ftype) < 0 && used == |Values(fs)|
      && end == ValueAt(fs, |fs|) {
      HoldsKeys(was, fs);
      Scan(was, fs);
      NewDone(was, mid, buf[..], fs, f, used, count, ok, len);
    }
  }

  lemma ThreeParts(s: seq<byte>, i: nat, j: nat)
    requires i <= j <= |s|
    ensures s == s[..i] + s[i..j] + s[j..]
  {
  }

  /** apfs_insert_xfield() */
  method InsertXfield(buf: array<byte>, f: Field, ghost fs: seq<Field>) returns (len: nat)
    requires FieldOk(f)
    modifies buf
    ensures old(Holds(buf[..], fs)) && |fs| < 65535 ==> Fits(fs) && Inserted(buf[..], fs, f, len)
  {
    hide Encode, Values, Keys, Key, Value, IndexOf, Padded, Splice, Le16, Holds, Inserted, Remaining;
    len := 0;
    ghost var was := buf[..];
    ghost var good := Holds(was, fs) && |fs| < 65535;
    if good { Scan(was, fs); }
    if buf.Length < 4 {
      return;
    }
    var used, count := U16(buf[..], 2), U16(buf[..], 0);
    var rest: int := buf.Length - 4 - count * 4;
    if rest < 0 {
      return;
    }
    var i := 0;
    while i < count
      invariant i <= count && 0 <= rest && 4 + 4 * count + rest <= buf.Length && buf[..] == was
      invariant good ==> count == |fs| && buf.Length - rest == ValueAt(fs, i) && forall j :: 0 <= j < i ==>
        fs[j].ftype != f.ftype
    {
      if good { ScanField(was, fs, i); }
      var curr := Padded(U16(buf[..], 4 + 4 * i + 2));
      if curr > rest {
        return;
      }
      if buf[4 + 4 * i] == f.ftype {
        if good { FirstIndex(fs, f.ftype, i); }
        len := InsertExisting(buf, i, buf.Length - rest, curr, used, count, f, fs);
        return;
      }
      rest := rest - curr;
      i := i + 1;
    }
    if good { NoIndex(fs, f.ftype); }
    len := InsertNew(buf, buf.Length - rest, used, count, f, fs);
  }

  lemma Scan(buf: seq<byte>, fs: seq<Field>)
    requires Holds(buf, fs)
    ensures Fits(fs) && |buf| >= 4 + 4 * |fs| && U16(buf, 0) == |fs| && U16(buf, 2) == |Values(fs)| &&
      ValueAt(fs, 0) == 4 + 4 * |fs|
    ensures ValueAt(fs, |fs|) == 4 + 4 * |fs| + |Values(fs)| <= |buf|
  {
    hide Values, Keys;
    HeaderAt(fs);
    EncodeLen(fs);
    ValueStart(fs);
    var e := Encode(fs);
    assert forall j :: 0 <= j < 4 ==> buf[j] == buf[..|e|][j];
  }

  lemma ScanField(buf: seq<byte>, fs: seq<Field>, i: nat)
    requires Holds(buf, fs) && i < |fs|
    ensures 4 + 4 * i + 4 <= |buf| && U16(buf, 4 + 4 * i + 2) == |fs[i].val| && buf[4 + 4 * i] == fs[i].ftype
    ensures ValueAt(fs, i + 1) == ValueAt(fs, i) + Padded(|fs[i].val|) <= |buf|
  {
    hide Values, Keys, Encode, Padded;
    FieldAt(fs, i);
    EncodeLen(fs);
    var e := Encode(fs);
    assert forall j :: 4 + 4 * i <= j < 4 + 4 * i + 4 ==> buf[j] == buf[..|e|][j];
  }

  /** apfs_init_xfields() */
  method InitXfields(buf: array<byte>) returns (ok: bool)
    modifies buf
    ensures ok <==> buf.Length >= 4
    ensures ok ==> Holds(buf[..], [])
  {
    if buf.Length < 4 {
      return false;
    }
    buf[0], buf[1], buf[2], buf[3] := 0, 0, 0, 0;
    assert buf[..4] == Encode([]);
    ok := true;
  }

  // What a lookup gives

  /** The value of the first field of some type. */
  ghost predicate Finds(fs: seq<Field>, ftype: byte, val: seq<byte>) {
    exists i :: 0 <= i < |fs| && IsFirst(fs, ftype, i) && fs[i].val == val
  }

  predicate IsFirst(fs: seq<Field>, ftype: byte, i: nat) {
    i < |fs| && fs[i].ftype == ftype && forall j :: 0 <= j < i ==> fs[j].ftype != ftype
  }

  /** A field that was set is found with its new value, and every other as it was; the
      types stay distinct, and the fields in their places. */
  lemma FindAfterSet(fs: seq<Field>, f: Field, ftype: byte, val: seq<byte>)
    ensures Finds(SetField(fs, f), ftype, val) <==> if ftype == f.ftype then val == f.val else Finds(fs, ftype, val)
    ensures Distinct(fs) ==> Distinct(SetField(fs, f))
    ensures |fs| <= |SetField(fs, f)| && f in SetField(fs, f)
    ensures forall i :: 0 <= i < |fs| && fs[i].ftype != f.ftype ==> SetField(fs, f)[i] == fs[i]
  {
    var t, k := SetField(fs, f), IndexOf(fs, f.ftype);
    if k >= 0 { IndexFirst(fs, f.ftype); }
    assert t[if k >= 0 then k else |fs|] == f;
    assert IsFirst(t, f.ftype, if k >= 0 then k else |fs|);
    if ftype != f.ftype {
      forall i | 0 <= i < |t|
        ensures IsFirst(t, ftype, i) <==> IsFirst(fs, ftype, i)
      {
        SetFirst(fs, f, ftype, i);
      }
      if Finds(fs, ftype, val) {
        var i :| 0 <= i < |fs| && IsFirst(fs, ftype, i) && fs[i].val == val;
        assert IsFirst(t, ftype, i) && t[i] == fs[i];
      }
      if Finds(t, ftype, val) {
        var i :| 0 <= i < |t| && IsFirst(t, ftype, i) && t[i].val == val;
        assert IsFirst(fs, ftype, i) && t[i] == fs[i];
      }
    }
  }

  lemma SetFirst(fs: seq<Field>, f: Field, ftype: byte, i: nat)
    requires ftype != f.ftype && i < |SetField(fs, f)|
    ensures IsFirst(SetField(fs, f), ftype, i) <==> IsFirst(fs, ftype, i)
  {
    hide IndexOf;
    var t := SetField(fs, f);
    assert forall j :: 0 <= j < |fs| ==> t[j].ftype == fs[j].ftype;
    assert i >= |fs| ==> t[i] == f;
    if IsFirst(t, ftype, i) {
      assert forall j :: 0 <= j < i ==> t[j].ftype == fs[j].ftype;
    }
  }

  lemma {:induction false} IndexFirst(fs: seq<Field>, ftype: byte)
    requires IndexOf(fs, ftype) >= 0
    ensures IsFirst(fs, ftype, IndexOf(fs, ftype))
  {
    if IndexOf(fs[..|fs| - 1], ftype) >= 0 { IndexFirst(fs[..|fs| - 1], ftype); }
  }

  /** A field goes in the buffer, and any field is found again in there. */
  method InsertAndFind(buf: array<byte>, f: Field, ftype: byte, ghost fs: seq<Field>)
    returns (len: nat, n: nat, at: nat)
    requires FieldOk(f) && Holds(buf[..], fs) && |fs| < 65535 && Fits(SetField(fs, f))
    requires |Encode(SetField(fs, f))| <= buf.Length
    modifies buf
    ensures at + n <= buf.Length
    ensures ftype == f.ftype ==> IsPadded(buf[at..at + n], f.val)
    ensures ftype != f.ftype ==> forall val :: Finds(fs, ftype, val) ==> IsPadded(buf[at..at + n], val)
    ensures ftype != f.ftype && (forall i :: 0 <= i < |fs| ==> fs[i].ftype != ftype) ==> n == 0
  {
    hide Encode, Values, Keys, Key, Value, IndexOf, Padded, Splice, Le16, SetField, IsPadded;
    ghost var t := SetField(fs, f);
    len := InsertXfield(buf, f, fs);
    n, at := FindXfield(buf[..len], ftype, t);
    assert buf[..len][at..at + n] == buf[at..at + n];
    FoundField(fs, f, ftype);
  }

  /** The field that a lookup finds after an insertion. */
  lemma FoundField(fs: seq<Field>, f: Field, ftype: byte)
    ensures var t := SetField(fs, f);
      var k := IndexOf(t, ftype);
      && (ftype == f.ftype ==> k >= 0 && t[k].val == f.val)
      && (ftype != f.ftype ==> forall val :: Finds(fs, ftype, val) ==> k >= 0 && t[k].val == val)
      && (ftype != f.ftype && (forall i :: 0 <= i < |fs| ==> fs[i].ftype != ftype) ==> k < 0)
  {
    hide IndexOf;
    var t := SetField(fs, f);
    var k := IndexOf(t, ftype);
    if k >= 0 { IndexFirst(t, ftype); }
    if ftype == f.ftype {
      FindAfterSet(fs, f, ftype, f.val);
      assert Finds(t, ftype, t[k].val);
      FindAfterSet(fs, f, ftype, t[k].val);
    } else {
      if k >= 0 {
        assert Finds(t, ftype, t[k].val);
        FindAfterSet(fs, f, ftype, t[k].val);
      }
      forall val | Finds(fs, ftype, val)
        ensures k >= 0 && t[k].val == val
      {
        FindAfterSet(fs, f, ftype, val);
      }
    }
  }

  /** Two fields whose values take 65536 bytes together: the size of the data comes out as
      zero, and the length that is reported is that of the keys alone. */
  lemma WrapSizes(fs: seq<Field>, f: Field)
    requires fs == [Field(1, 0, Zeros(65528))] && f == Field(2, 0, Zeros(8))
    ensures FieldOk(f) && Fits(fs) && |Encode(fs)| == 65536
    ensures !Fits(SetField(fs, f)) && |SetField(fs, f)| == 2 && |Values(SetField(fs, f))| == 65536
  {
    OneField(fs[0]);
    BodyAppended(fs, f);
    NoIndex(fs, 2);
    assert Padded(65528) == 65528 && Padded(8) == 8;
    EncodeLen(fs);
  }

  method WrapExample() returns (len: nat)
    ensures var fs, f := [Field(1, 0, Zeros(65528))], Field(2, 0, Zeros(8));
      && Fits(fs) && |SetField(fs, f)| == 2 && |Values(SetField(fs, f))| == 65536
      && len == 12
  {
    hide Encode, Values, Zeros, SetField;
    var fs, f := [Field(1, 0, Zeros(65528))], Field(2, 0, Zeros(8));
    WrapSizes(fs, f);
    var e := Encode(fs);
    var buf := new byte[65548](i => if 0 <= i < |e| then e[i] else 0);
    assert buf[..][..|e|] == e;
    len := InsertXfield(buf, f, fs);
  }
}
