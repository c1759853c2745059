/** The format that Zbitmap decodes, from the other side: what some bitmaps stand for, and the
    bytes of a chunk that holds them. */
module ZbitmapEncoder {
  import opened Zbitmap

  // Bits, bytes and half-bytes

  /** The lowest bit comes first. */
  function Number(bits: seq<bool>): (x: nat)
    ensures |bits| <= 8 ==> x < Power(|bits|)
  {
    if bits == [] then 0 else (if bits[0] then 1 else 0) + 2 * Number(bits[1..])
  }

  lemma {:induction false} NumberBits(bits: seq<bool>, i: nat)
    requires i < |bits| <= 8
    ensures Number(bits) < 256 && Bit(Number(bits), i) == bits[i]
  {
    if i > 0 { NumberBits(bits[1..], i - 1); }
  }

  lemma {:induction false} NumberMore(bits: seq<bool>, b: bool)
    requires |bits| < 8
    ensures Number(bits + [b]) == Number(bits) + if b then Power(|bits|) else 0
  {
    if bits != [] {
      NumberMore(bits[1..], b);
      assert (bits + [b])[1..] == bits[1..] + [b];
    } else {
      assert [b][1..] == [];
    }
  }

  /** Eight bits to a byte. */
  function Bytes(bits: seq<bool>): (r: seq<byte>)
    requires |bits| % 8 == 0
    ensures |r| == |bits| / 8
  {
    if bits == [] then [] else [Number(bits[..8])] + Bytes(bits[8..])
  }

  lemma {:induction false} BytesBits(bits: seq<bool>, i: nat)
    requires |bits| % 8 == 0 && i < |bits|
    ensures i / 8 < |Bytes(bits)| && Bit(Bytes(bits)[i / 8], i % 8) == bits[i]
  {
    if i < 8 {
      NumberBits(bits[..8], i);
    } else {
      BytesBits(bits[8..], i - 8);
      assert i / 8 == (i - 8) / 8 + 1 && i % 8 == (i - 8) % 8;
    }
  }

  /** A field of the bits that are in some place is their number. */
  lemma {:induction false} FieldIs(src: seq<byte>, base: nat, bits: seq<bool>, k: nat, n: nat)
    requires |bits| % 8 == 0 && base + |bits| / 8 <= |src| && src[base..base + |bits| / 8] == Bytes(bits)
    requires n <= 8 && k + n <= |bits|
    ensures n == 0 || base + (k + n - 1) / 8 < |src|
    ensures BitField(src, base, k, n) == Number(bits[k..k + n])
    decreases n
  {
    hide Bit, Number, Bytes, Power;
    if n == 0 {
      assert Number([]) == 0 by { NoBits(); }
    } else {
      var i := k + n - 1;
      FieldIs(src, base, bits, k, n - 1);
      BytesBits(bits, i);
      assert src[base + i / 8] == src[base..base + |bits| / 8][i / 8];
      NumberMore(bits[k..i], bits[i]);
      assert bits[k..i] + [bits[i]] == bits[k..k + n];
    }
  }

  lemma NoBits()
    ensures Number([]) == 0
  {
  }

  /** Two half-bytes to a byte, the low one first. */
  function Packed(nibs: seq<nat>): (r: seq<byte>)
    requires forall k :: 0 <= k < |nibs| ==> nibs[k] < 16
    ensures |r| == (|nibs| + 1) / 2
  {
    if nibs == [] then []
    else if |nibs| == 1 then [nibs[0]]
    else [nibs[0] + 16 * nibs[1]] + Packed(nibs[2..])
  }

  lemma {:induction false} PackedAt(nibs: seq<nat>, k: nat)
    requires (forall j :: 0 <= j < |nibs| ==> nibs[j] < 16) && k < |nibs|
    ensures k / 2 < |Packed(nibs)|
    ensures nibs[k] == if k % 2 == 0 then Packed(nibs)[k / 2] % 16 else Packed(nibs)[k / 2] / 16
  {
    if k >= 2 {
      PackedAt(nibs[2..], k - 2);
      assert k / 2 == (k - 2) / 2 + 1 && k % 2 == (k - 2) % 2;
    }
  }

  // What bitmaps stand for

  /** One bitmap: eight bits, the period if there is a new one, and the literal bytes. */
  datatype App = App(bits: seq<bool>, period: nat, lits: seq<byte>)

  /** The number of a bitmap, and all the times in a row that it is used. */
  datatype Group = Group(number: nat, apps: seq<App>)

  /** An entry of the table at the end of a chunk. */
  datatype Entry = Entry(bits: seq<bool>, periodBytes: nat)

  /** A set bit is the next literal; a clear one repeats what comes one period before. */
  function Extended(bits: seq<bool>, lits: seq<byte>, period: nat, out: seq<byte>): (r: seq<byte>)
    requires Extends(bits, lits, period, out)
    ensures |r| == |out| + |bits| && out <= r
    decreases |bits|
  {
    if bits == [] then out
    else if bits[0] then Extended(bits[1..], lits[1..], period, out + [lits[0]])
    else Extended(bits[1..], lits, period, out + [out[|out| - period]])
  }

  /** There is exactly one literal for each set bit, and something to repeat for the others. */
  predicate Extends(bits: seq<bool>, lits: seq<byte>, period: nat, out: seq<byte>)
    decreases |bits|
  {
    if bits == [] then lits == []
    else if bits[0] then lits != [] && Extends(bits[1..], lits[1..], period, out + [lits[0]])
    else 0 < period <= |out| && Extends(bits[1..], lits, period, out + [out[|out| - period]])
  }

  /** The output so far, and the last period. */
  datatype Text = Text(out: seq<byte>, period: nat)

  /** A table, and the length of the output at the end of the chunk. */
  datatype Plan = Plan(table: seq<Entry>, goal: nat) {
    predicate Valid() {
      |table| == 12 && forall i :: 0 <= i < 12 ==> |table[i].bits| == 8 && table[i].periodBytes <= 2
    }

    /** Numbers up to two come with their own bitmap, and as many bytes for the period. */
    function PeriodBytes(number: nat): (n: nat)
      requires Valid() && number < 15
      ensures n <= 2
    {
      if number <= 2 then number else table[number - 3].periodBytes
    }

    /** Only the last bitmap of a chunk may be cut short. */
    function Used(app: App, out: seq<byte>): seq<bool>
      requires |app.bits| == 8 && |out| <= goal
    {
      if goal - |out| < 8 then app.bits[..goal - |out|] else app.bits
    }

    function Period(number: nat, app: App, text: Text): nat
      requires Valid() && number < 15
    {
      if PeriodBytes(number) > 0 then app.period else text.period
    }

    predicate AppOk(number: nat, app: App, text: Text)
      requires Valid() && number < 15
    {
      && |app.bits| == 8 && |text.out| < goal && (number > 2 ==> app.bits == table[number - 3].bits)
      && (PeriodBytes(number) == 1 ==> app.period < 256) && (PeriodBytes(number) == 2 ==> app.period < 65536)
      && Period(number, app, text) > 0
      && Extends(Used(app, text.out), app.lits, Period(number, app, text), text.out)
    }

    function AppText(number: nat, app: App, text: Text): (r: Text)
      requires Valid() && number < 15 && AppOk(number, app, text)
      ensures |text.out| < |r.out| <= goal && text.out <= r.out
      ensures |r.out| == if goal - |text.out| < 8 then goal else |text.out| + 8
    {
      var p := Period(number, app, text);
      Text(Extended(Used(app, text.out), app.lits, p, text.out), p)
    }

    predicate AppsOk(number: nat, apps: seq<App>, text: Text)
      requires Valid() && number < 15
      decreases |apps|
    {
      apps == [] || (AppOk(number, apps[0], text) && AppsOk(number, apps[1..], AppText(number, apps[0], text)))
    }

    function AppsText(number: nat, apps: seq<App>, text: Text): (r: Text)
      requires Valid() && number < 15 && AppsOk(number, apps, text)
      ensures text.out <= r.out && (|text.out| <= goal ==> |r.out| <= goal) && (apps != [] ==> |text.out| < |r.out|)
      decreases |apps|
    {
      if apps == [] then text else AppsText(number, apps[1..], AppText(number, apps[0], text))
    }

    /** A bitmap is used once, or four times and up. */
    predicate GroupOk(g: Group, text: Text)
      requires Valid()
    {
      g.number < 15 && (|g.apps| == 1 || 4 <= |g.apps| < 65536) && AppsOk(g.number, g.apps, text)
    }

    predicate GroupsOk(groups: seq<Group>, text: Text)
      requires Valid()
      decreases |groups|
    {
      if groups == [] then |text.out| == goal
      else GroupOk(groups[0], text) && GroupsOk(groups[1..], AppsText(groups[0].number, groups[0].apps, text))
    }

    /** What all of the bitmaps stand for. */
    function GroupsText(groups: seq<Group>, text: Text): (r: Text)
      requires Valid() && GroupsOk(groups, text)
      ensures text.out <= r.out && |r.out| == goal
      decreases |groups|
    {
      if groups == [] then text else GroupsText(groups[1..], AppsText(groups[0].number, groups[0].apps, text))
    }

    // The areas of a chunk

    function PeriodOf(number: nat, app: App): seq<byte>
      requires Valid() && number < 15
      requires PeriodBytes(number) == 1 ==> app.period < 256
      requires PeriodBytes(number) == 2 ==> app.period < 65536
    {
      if PeriodBytes(number) == 0 then []
      else if PeriodBytes(number) == 1 then [app.period]
      else [app.period % 256, app.period / 256]
    }

    function BitmapOf(number: nat, app: App): seq<byte>
      requires |app.bits| == 8
    {
      if number <= 2 then [Number(app.bits)] else []
    }
  }

  /** The literals, the periods and the bitmaps that are not in the table. */
  datatype Areas = Areas(data: seq<byte>, meta1: seq<byte>, meta2: seq<byte>) {
    function Then(b: Areas): Areas { Areas(data + b.data, meta1 + b.meta1, meta2 + b.meta2) }
  }

  function AppAreas(p: Plan, number: nat, app: App, text: Text): Areas
    requires p.Valid() && number < 15 && p.AppOk(number, app, text)
  {
    Areas(app.lits, p.PeriodOf(number, app), p.BitmapOf(number, app))
  }

  function AppsAreas(p: Plan, number: nat, apps: seq<App>, text: Text): Areas
    requires p.Valid() && number < 15 && p.AppsOk(number, apps, text)
    decreases |apps|
  {
    if apps == [] then Areas([], [], [])
    else AppAreas(p, number, apps[0], text).Then(AppsAreas(p, number, apps[1..], p.AppText(number, apps[0], text)))
  }

  function GroupsAreas(p: Plan, groups: seq<Group>, text: Text): Areas
    requires p.Valid() && p.GroupsOk(groups, text)
    decreases |groups|
  {
    if groups == [] then Areas([], [], [])
    else
      var g := groups[0];
      AppsAreas(p, g.number, g.apps, text).Then(GroupsAreas(p, groups[1..], p.AppsText(g.number, g.apps, text)))
  }

  /** A repetition count, less four: as many fifteens as there are, and then the rest. */
  function Count(n: nat): (r: seq<nat>)
    ensures |r| > 0 && forall k :: 0 <= k < |r| ==> r[k] < 16
  {
    if n < 15 then [n] else [15] + Count(n - 15)
  }

  /** The number of a bitmap, and how often it is used if that is more than once. */
  function GroupNibs(g: Group): (r: seq<nat>)
    requires g.number < 15 && (|g.apps| == 1 || 4 <= |g.apps|)
    ensures |r| > 0 && r[0] == g.number && forall k :: 0 <= k < |r| ==> r[k] < 16
  {
    [g.number] + if |g.apps| == 1 then [] else [15] + Count(|g.apps| - 4)
  }

  function GroupsNibs(p: Plan, groups: seq<Group>, text: Text): (r: seq<nat>)
    requires p.Valid() && p.GroupsOk(groups, text)
    ensures forall k :: 0 <= k < |r| ==> r[k] < 16
    ensures groups != [] ==> |r| > 0 && r[0] < 15
    decreases |groups|
  {
    if groups == [] then []
    else
      var g := groups[0];
      GroupNibs(g) + GroupsNibs(p, groups[1..], p.AppsText(g.number, g.apps, text))
  }

  // The decoder reads them back

  /** Some bytes are next in an area of the chunk. */
  ghost predicate Here(c: Chunk, pos: nat, s: seq<byte>) {
    pos + |s| <= c.end <= |c.src| && c.src[pos..pos + |s|] == s
  }

  ghost predicate NibHere(c: Chunk, pos: nat, x: nat)
    requires c.Valid()
  {
    pos / 2 < c.end && c.Nibble(pos) == x
  }

  ghost predicate NibsHere(c: Chunk, pos: nat, nibs: seq<nat>)
    requires c.Valid()
  {
    forall k :: 0 <= k < |nibs| ==> NibHere(c, pos + k, nibs[k])
  }

  ghost predicate Ahead(c: Chunk, cur: Cursor, a: Areas) {
    Here(c, cur.data, a.data) && Here(c, cur.meta1, a.meta1) && Here(c, cur.meta2, a.meta2)
  }

  /** The chunk has the table of a plan. */
  ghost predicate Fits(c: Chunk, p: Plan) {
    && c.Valid() && p.Valid() && c.goal == p.goal
    && forall i :: 0 <= i < 12 ==> c.bitmaps[i] == Bmap(Number(p.table[i].bits), p.table[i].periodBytes)
  }

  lemma FitsValid(c: Chunk, p: Plan)
    requires Fits(c, p)
    ensures c.Valid()
  {
  }

  lemma HereSplit(c: Chunk, pos: nat, s: seq<byte>, t: seq<byte>)
    ensures Here(c, pos, s + t) <==> Here(c, pos, s) && Here(c, pos + |s|, t)
  {
    if Here(c, pos, s + t) {
      assert c.src[pos..pos + |s|] == (s + t)[..|s|];
      assert c.src[pos + |s|..pos + |s| + |t|] == (s + t)[|s|..];
    }
    if Here(c, pos, s) && Here(c, pos + |s|, t) {
      assert c.src[pos..pos + |s + t|] == c.src[pos..pos + |s|] + c.src[pos + |s|..pos + |s| + |t|];
    }
  }

  lemma NibsSplit(c: Chunk, pos: nat, s: seq<nat>, t: seq<nat>)
    requires c.Valid() && NibsHere(c, pos, s + t)
    ensures NibsHere(c, pos, s) && NibsHere(c, pos + |s|, t)
  {
    hide NibHere;
    assert forall k :: 0 <= k < |s| ==> (s + t)[k] == s[k];
    forall k | 0 <= k < |t|
      ensures NibHere(c, pos + |s| + k, t[k])
    {
      assert NibHere(c, pos + (|s| + k), (s + t)[|s| + k]);
    }
  }

  /** Where the areas are after some of them were read. */
  function Moved(cur: Cursor, text: Text, a: Areas): Cursor {
    cur.(out := text.out, period := text.period, data := cur.data + |a.data|, meta1 := cur.meta1 + |a.meta1|,
         meta2 := cur.meta2 + |a.meta2|)
  }

  lemma AheadSplit(c: Chunk, cur: Cursor, a: Areas, b: Areas, text: Text)
    requires Ahead(c, cur, a.Then(b))
    ensures Ahead(c, cur, a) && Ahead(c, Moved(cur, text, a), b)
  {
    hide Here;
    HereSplit(c, cur.data, a.data, b.data);
    HereSplit(c, cur.meta1, a.meta1, b.meta1);
    HereSplit(c, cur.meta2, a.meta2, b.meta2);
  }

  /** The bits from i on of a bitmap are copied as they should. */
  lemma {:induction false} CopiesBits(c: Chunk, bits: seq<bool>, i: nat, n: nat, lits: seq<byte>, cur: Cursor)
    requires c.Valid() && |bits| == 8 && i <= n <= 8 && cur.period > 0 && Here(c, cur.data, lits)
    requires Extends(bits[i..n], lits, cur.period, cur.out)
    requires |cur.out| + n - i <= c.goal && (n == 8 || |cur.out| + n - i == c.goal)
    ensures Number(bits) < 256
    ensures c.CopyBits(Number(bits), i, cur) ==
      Done(cur.(out := Extended(bits[i..n], lits, cur.period, cur.out), data := cur.data + |lits|))
    decreases 8 - i
  {
    hide Bit, Chunk.CopyBits, Number;
    NumberBits(bits, if i < 8 then i else 7);
    CopyCase(c, Number(bits), i, cur);
    if i < n {
      var s := bits[i..n];
      assert s[0] == bits[i] && s[1..] == bits[i + 1..n];
      if bits[i] {
        assert lits == [lits[0]] + lits[1..];
        HereSplit(c, cur.data, [lits[0]], lits[1..]);
        assert c.src[cur.data] == c.src[cur.data..cur.data + 1][0];
        CopiesBits(c, bits, i + 1, n, lits[1..], NextByte(c, Number(bits), i, cur));
      } else {
        CopiesBits(c, bits, i + 1, n, lits, NextByte(c, Number(bits), i, cur));
      }
    } else {
      assert bits[i..n] == [];
    }
  }

  /** A bitmap of any number does what it stands for. */
  lemma AppliesOne(c: Chunk, p: Plan, number: nat, app: App, text: Text, cur: Cursor)
    requires Fits(c, p) && number < 15 && p.AppOk(number, app, text)
    requires cur.out == text.out && cur.period == text.period && Ahead(c, cur, AppAreas(p, number, app, text))
    ensures c.ApplyNumber(number, cur) ==
      Done(Moved(cur, p.AppText(number, app, text), AppAreas(p, number, app, text)))
  {
    hide Chunk.CopyBits, Number, Extends, Extended;
    var n := if p.goal - |text.out| < 8 then p.goal - |text.out| else 8;
    var cur1 := if number <= 2 then cur.(meta2 := cur.meta2 + 1) else cur;
    var cur2 := cur1.(period := p.Period(number, app, text), meta1 := cur.meta1 + |p.PeriodOf(number, app)|);
    assert app.bits[0..n] == p.Used(app, text.out);
    CopiesBits(c, app.bits, 0, n, app.lits, cur2);
    ReadsPeriod(c, p, number, app, text, cur1);
    if number <= 2 { assert c.src[cur.meta2] == c.src[cur.meta2..cur.meta2 + 1][0]; }
  }

  lemma ReadsPeriod(c: Chunk, p: Plan, number: nat, app: App, text: Text, cur: Cursor)
    requires Fits(c, p) && number < 15 && p.AppOk(number, app, text)
    requires cur.period == text.period && Here(c, cur.meta1, p.PeriodOf(number, app))
    ensures c.ReadPeriod(p.PeriodBytes(number), cur) ==
      Done(cur.(period := p.Period(number, app, text), meta1 := cur.meta1 + |p.PeriodOf(number, app)|))
  {
    hide Number, Extends;
    var s := p.PeriodOf(number, app);
    if |s| > 0 { assert c.src[cur.meta1] == c.src[cur.meta1..cur.meta1 + |s|][0]; }
    if |s| > 1 { assert c.src[cur.meta1 + 1] == c.src[cur.meta1..cur.meta1 + |s|][1]; }
  }

  /** So does one that is used many times. */
  lemma {:induction false} RepeatsAll(c: Chunk, p: Plan, number: nat, apps: seq<App>, text: Text, cur: Cursor)
    requires Fits(c, p) && number < 15 && p.AppsOk(number, apps, text)
    requires cur.out == text.out && cur.period == text.period && Ahead(c, cur, AppsAreas(p, number, apps, text))
    ensures c.Repeat(number, |apps|, cur) ==
      Done(Moved(cur, p.AppsText(number, apps, text), AppsAreas(p, number, apps, text)))
    decreases |apps|
  {
    hide Chunk.ApplyNumber, Ahead, Plan.AppOk, Plan.AppText, AppAreas;
    if apps != [] {
      var a, text2 := AppAreas(p, number, apps[0], text), p.AppText(number, apps[0], text);
      var b := AppsAreas(p, number, apps[1..], text2);
      AheadSplit(c, cur, a, b, text2);
      AppliesOne(c, p, number, apps[0], text, cur);
      RepeatsAll(c, p, number, apps[1..], text2, Moved(cur, text2, a));
    }
  }

  /** The repetition count is read back. */
  lemma {:induction false} CountRead(c: Chunk, pos: nat, n: nat, total: nat)
    requires c.Valid() && NibsHere(c, pos, Count(n)) && total + n < 65536
    ensures c.CountFrom(pos, total) == (true, pos + |Count(n)|, total + n)
    decreases n
  {
    assert NibHere(c, pos + 0, Count(n)[0]);
    if n >= 15 {
      NibsSplit(c, pos, [15], Count(n - 15));
      CountRead(c, pos + 1, n - 15, total + 15);
    }
  }

  /** The half-bytes give the number and the count of each group; a single bitmap can't be
      taken for a repeated one, because another number or the end of the chunk follows. */
  lemma SingleRead(c: Chunk, p: Plan, g: Group, rest: seq<nat>, text: Text, cur: Cursor)
    requires Fits(c, p) && p.GroupOk(g, text) && cur.out == text.out && |text.out| < p.goal
    requires NibsHere(c, cur.meta3, GroupNibs(g) + rest)
    requires |g.apps| == 1 && p.goal - |text.out| > 8 ==> rest != [] && rest[0] != 15
    ensures cur.meta3 / 2 < c.end && c.Nibble(cur.meta3) == g.number
    ensures c.RepeatCount(cur.(meta3 := cur.meta3 + 1)) == (true, cur.meta3 + |GroupNibs(g)|, |g.apps|)
  {
    hide Chunk.Nibble, Chunk.CountFrom, Count, Plan.AppText;
    var nibs := GroupNibs(g) + rest;
    assert NibHere(c, cur.meta3 + 0, nibs[0]);
    if |g.apps| == 1 {
      if p.goal - |text.out| > 8 { assert NibHere(c, cur.meta3 + 1, nibs[1]); }
    } else {
      ManyMore(p, g.number, g.apps, text);
      assert NibHere(c, cur.meta3 + 1, nibs[1]);
      assert nibs == [g.number, 15] + (Count(|g.apps| - 4) + rest);
      NibsSplit(c, cur.meta3, [g.number, 15], Count(|g.apps| - 4) + rest);
      NibsSplit(c, cur.meta3 + 2, Count(|g.apps| - 4), rest);
      CountRead(c, cur.meta3 + 2, |g.apps| - 4, 4);
    }
  }

  /** With more than one bitmap to come, there are more than eight bytes to come. */
  lemma ManyMore(p: Plan, number: nat, apps: seq<App>, text: Text)
    requires p.Valid() && number < 15 && p.AppsOk(number, apps, text) && |apps| > 1
    ensures p.goal - |text.out| > 8
  {
    hide Plan.AppText;
    assert apps[1..] != [];
    assert p.AppOk(number, apps[1..][0], p.AppText(number, apps[0], text));
  }

  lemma {:induction false} GroupsRead(c: Chunk, p: Plan, groups: seq<Group>, text: Text, cur: Cursor)
    requires Fits(c, p) && p.GroupsOk(groups, text) && cur.out == text.out && cur.period == text.period
    requires |text.out| <= p.goal
    requires Ahead(c, cur, GroupsAreas(p, groups, text)) && NibsHere(c, cur.meta3, GroupsNibs(p, groups, text))
    ensures c.Bitmaps(cur).Done? && c.Bitmaps(cur).cur.out == p.GroupsText(groups, text).out
    decreases |groups|
  {
    hide Chunk.Repeat, Chunk.RepeatCount, Chunk.Nibble, Ahead, Plan.AppsOk, Plan.AppsText, AppsAreas, GroupNibs;
    hide NibsHere;
    if groups != [] {
      var g, more := groups[0], groups[1..];
      var a, text2 := AppsAreas(p, g.number, g.apps, text), p.AppsText(g.number, g.apps, text);
      var b, nibs := GroupsAreas(p, more, text2), GroupsNibs(p, more, text2);
      SomeLeft(p, g, text);
      MoreGroups(p, g, more, text);
      SingleRead(c, p, g, nibs, text, cur);
      var next := cur.(meta3 := cur.meta3 + |GroupNibs(g)|);
      AheadMeta3(c, cur, next, a.Then(b));
      AheadSplit(c, next, a, b, text2);
      RepeatsAll(c, p, g.number, g.apps, text, next);
      NibsSplit(c, cur.meta3, GroupNibs(g), nibs);
      GroupsRead(c, p, more, text2, Moved(next, text2, a));
    }
  }

  lemma AheadMeta3(c: Chunk, cur: Cursor, next: Cursor, a: Areas)
    requires Ahead(c, cur, a) && next == cur.(meta3 := next.meta3)
    ensures Ahead(c, next, a)
  {
  }

  lemma SomeLeft(p: Plan, g: Group, text: Text)
    requires p.Valid() && p.GroupOk(g, text)
    ensures |text.out| < p.goal && |text.out| < |p.AppsText(g.number, g.apps, text).out|
  {
    assert g.apps != [];
  }

  /** A single bitmap is at most eight bytes. */
  lemma MoreGroups(p: Plan, g: Group, more: seq<Group>, text: Text)
    requires p.Valid() && p.GroupOk(g, text) && p.GroupsOk(more, p.AppsText(g.number, g.apps, text))
    ensures |g.apps| == 1 && p.goal - |text.out| > 8 ==> more != []
  {
    if |g.apps| == 1 {
      var text2 := p.AppText(g.number, g.apps[0], text);
      assert g.apps[1..] == [] && p.AppsText(g.number, [], text2) == text2;
    }
  }

  // The table of bitmaps

  function EntryBits(e: Entry): seq<bool> { e.bits + [e.periodBytes % 2 == 1, e.periodBytes / 2 == 1] }

  /** Ten bits for each entry. */
  function TableBits(table: seq<Entry>): (r: seq<bool>)
    requires forall i :: 0 <= i < |table| ==> |table[i].bits| == 8
    ensures |r| == 10 * |table|
  {
    if table == [] then [] else TableBits(table[..|table| - 1]) + EntryBits(table[|table| - 1])
  }

  /** And two bytes that are not used. */
  function TableBytes(p: Plan): (r: seq<byte>)
    requires p.Valid()
    ensures |r| == 17
  {
    Bytes(TableBits(p.table) + seq(16, _ => false))
  }

  lemma {:induction false} EntryAt(table: seq<Entry>, i: nat)
    requires (forall k :: 0 <= k < |table| ==> |table[k].bits| == 8) && i < |table|
    ensures TableBits(table)[10 * i..10 * i + 10] == EntryBits(table[i])
  {
    var n := |table| - 1;
    if i < n {
      EntryAt(table[..n], i);
      assert TableBits(table)[10 * i..10 * i + 10] == TableBits(table[..n])[10 * i..10 * i + 10];
    }
  }

  lemma EntryRead(src: seq<byte>, base: nat, p: Plan, i: nat)
    requires p.Valid() && i < 12 && base + 17 <= |src| && src[base..base + 17] == TableBytes(p)
    ensures BmapAt(src, base, i) == Bmap(Number(p.table[i].bits), p.table[i].periodBytes)
  {
    hide Number, Bytes, BitField, TableBits;
    var bits, e := TableBits(p.table) + seq(16, _ => false), p.table[i];
    EntryAt(p.table, i);
    var ten := bits[10 * i..10 * i + 10];
    assert ten == EntryBits(e);
    FieldIs(src, base, bits, 10 * i, 8);
    FieldIs(src, base, bits, 10 * i + 8, 2);
    assert bits[10 * i..10 * i + 8] == ten[..8] == e.bits;
    assert bits[10 * i + 8..10 * i + 10] == ten[8..];
    TwoBits(e.periodBytes);
  }

  lemma TwoBits(n: nat)
    requires n <= 2
    ensures Number([n % 2 == 1, n / 2 == 1]) == n
  {
    assert [n % 2 == 1, n / 2 == 1][1..] == [n / 2 == 1] && [n / 2 == 1][1..] == [];
  }

  lemma {:induction false} TableRead(src: seq<byte>, base: nat, p: Plan, n: nat)
    requires p.Valid() && n <= 12 && base + 17 <= |src| && src[base..base + 17] == TableBytes(p)
    ensures forall i :: 0 <= i < n ==>
      BmapsAt(src, base, n)[i] == Bmap(Number(p.table[i].bits), p.table[i].periodBytes)
  {
    hide Number, BmapAt, TableBytes;
    if n > 0 {
      TableRead(src, base, p, n - 1);
      EntryRead(src, base, p, n - 1);
    }
  }

  // Whole chunks

  /** The bitmaps of a chunk with their areas. */
  datatype Layout = Layout(areas: Areas, nibs: seq<byte>, table: seq<byte>) {
    function Off1(): nat { 15 + |areas.data| }

    function Off2(): nat { Off1() + |areas.meta1| }

    function Off3(): nat { Off2() + |areas.meta2| }

    function Len(): nat { Off3() + |nibs| + |table| }

    function Body(): seq<byte> { areas.data + areas.meta1 + areas.meta2 + nibs + table }

    function Encoded(n: nat): (r: seq<byte>)
      requires Len() < 0x1000000 && n < 0x1000000
      ensures |r| == Len()
    {
      Bytes24(Len()) + Bytes24(n) + Bytes24(Off1()) + Bytes24(Off2()) + Bytes24(Off3()) + Body()
    }
  }

  function LayoutOf(p: Plan, groups: seq<Group>, text: Text): (l: Layout)
    requires p.Valid() && p.GroupsOk(groups, text)
    ensures |l.table| == 17
  {
    Layout(GroupsAreas(p, groups, text), Packed(GroupsNibs(p, groups, text)), TableBytes(p))
  }

  /** What the decoder finds in a chunk, and where. */
  lemma HeaderRead(before: seq<byte>, l: Layout, n: nat, rest: seq<byte>)
    requires l.Len() < 0x1000000 && n < 0x1000000
    ensures var src, at := before + (l.Encoded(n) + rest), |before|;
      && at + l.Len() <= |src| && U24(src, at) == l.Len() && U24(src, at + 3) == n
      && U24(src, at + 6) == l.Off1() && U24(src, at + 9) == l.Off2() && U24(src, at + 12) == l.Off3()
  {
    hide U24, Bytes24;
    ThreeBytes(l, n);
    var h1, h2, h3 := Bytes24(l.Len()), Bytes24(n), Bytes24(l.Off1());
    var h4, h5 := Bytes24(l.Off2()), Bytes24(l.Off3());
    var src := before + (l.Encoded(n) + rest);
    var b5 := l.Body() + rest;
    var b4 := h5 + b5;
    var b3 := h4 + b4;
    var b2 := h3 + b3;
    FiveParts(h1, h2, h3, h4, h5, l.Body(), rest);
    FieldAt(src, before, l.Len(), h2 + b2);
    FieldAt(src, before + h1, n, b2);
    FieldAt(src, before + h1 + h2, l.Off1(), b3);
    FieldAt(src, before + h1 + h2 + h3, l.Off2(), b4);
    FieldAt(src, before + h1 + h2 + h3 + h4, l.Off3(), b5);
  }

  lemma FiveParts(a: seq<byte>, b: seq<byte>, c: seq<byte>, d: seq<byte>, e: seq<byte>, f: seq<byte>, g: seq<byte>)
    ensures a + b + c + d + e + f + g == a + (b + (c + (d + (e + (f + g)))))
  {
  }

  lemma ThreeBytes(l: Layout, n: nat)
    requires l.Len() < 0x1000000 && n < 0x1000000
    ensures |Bytes24(l.Len())| == |Bytes24(n)| == |Bytes24(l.Off1())| == 3
    ensures |Bytes24(l.Off2())| == |Bytes24(l.Off3())| == 3
  {
  }

  lemma FieldAt(src: seq<byte>, a: seq<byte>, n: nat, b: seq<byte>)
    requires n < 0x1000000 && src == a + (Bytes24(n) + b)
    ensures |a| + 3 <= |src| && U24(src, |a|) == n && src == a + Bytes24(n) + b
  {
    hide U24;
    assert a + Bytes24(n) + b == src;
    ReadsBack(a, n, b);
  }

  /** The areas are where the header says. */
  lemma AreasRead(before: seq<byte>, l: Layout, n: nat, rest: seq<byte>, c: Chunk)
    requires l.Len() < 0x1000000 && n < 0x1000000
    requires c.src == before + (l.Encoded(n) + rest) && c.end == |before| + l.Len()
    ensures var at := |before|;
      && Here(c, at + 15, l.areas.data) && Here(c, at + l.Off1(), l.areas.meta1)
      && Here(c, at + l.Off2(), l.areas.meta2) && Here(c, at + l.Off3(), l.nibs)
      && Here(c, at + l.Off3() + |l.nibs|, l.table)
  {
    hide Here, Bytes24;
    var h := Bytes24(l.Len()) + Bytes24(n) + Bytes24(l.Off1()) + Bytes24(l.Off2()) + Bytes24(l.Off3());
    assert |h| == 15 by { ThreeBytes(l, n); }
    var a := l.areas;
    assert l.Encoded(n) == h + l.Body();
    assert l.Body() == a.data + (a.meta1 + (a.meta2 + (l.nibs + l.table)));
    InPlace(c, before, h + l.Body(), rest);
    HereSplit(c, |before|, h, l.Body());
    HereSplit(c, |before| + 15, a.data, a.meta1 + (a.meta2 + (l.nibs + l.table)));
    HereSplit(c, |before| + l.Off1(), a.meta1, a.meta2 + (l.nibs + l.table));
    HereSplit(c, |before| + l.Off2(), a.meta2, l.nibs + l.table);
    HereSplit(c, |before| + l.Off3(), l.nibs, l.table);
  }

  lemma InPlace(c: Chunk, a: seq<byte>, s: seq<byte>, b: seq<byte>)
    requires c.src == a + (s + b) && c.end == |a| + |s|
    ensures Here(c, |a|, s)
  {
  }

  lemma NibRead(c: Chunk, pos: nat, s: seq<byte>, k: nat, x: nat)
    requires c.Valid() && Here(c, pos, s) && k / 2 < |s|
    requires x == if k % 2 == 0 then s[k / 2] % 16 else s[k / 2] / 16
    ensures NibHere(c, 2 * pos + k, x)
  {
    NibblePos(pos + k / 2, k % 2);
    assert 2 * (pos + k / 2) + k % 2 == 2 * pos + k;
    assert c.src[pos + k / 2] == c.src[pos..pos + |s|][k / 2];
  }

  lemma NibsRead(c: Chunk, pos: nat, nibs: seq<nat>)
    requires c.Valid() && (forall k :: 0 <= k < |nibs| ==> nibs[k] < 16) && Here(c, pos, Packed(nibs))
    ensures NibsHere(c, 2 * pos, nibs)
  {
    hide NibHere, Here, Packed;
    forall k | 0 <= k < |nibs|
      ensures NibHere(c, 2 * pos + k, nibs[k])
    {
      PackedAt(nibs, k);
      NibRead(c, pos, Packed(nibs), k, nibs[k]);
    }
  }

  /** The decoder takes the chunk for a compressed one. */
  lemma TakenAs(src: seq<byte>, at: nat, l: Layout, out: seq<byte>, n: nat, room: nat, c: Chunk, cur: Cursor)
    requires at + l.Len() <= |src| && |l.table| == 17 && U24(src, at) == l.Len() && U24(src, at + 3) == n
    requires U24(src, at + 6) == l.Off1() && U24(src, at + 9) == l.Off2() && U24(src, at + 12) == l.Off3()
    requires n <= MAX_DECMP_CHUNK_SIZE && |out| + n <= room && l.Len() != n + 6
    requires c == Chunk(src, at + l.Len(), |out| + n, BmapsAt(src, at + l.Len() - 17, 12)) && c.Valid()
    requires cur == Cursor(out, 8, at + 15, at + l.Off1(), at + l.Off2(), 2 * (at + l.Off3()))
    requires c.Bitmaps(cur).Done?
    ensures OneChunk(src, at, out, room) == Good(c.Bitmaps(cur).cur.out, l.Len(), n)
  {
    hide U24, BmapsAt, Chunk.Bitmaps;
    assert BmapsOk(BmapsAt(src, at + l.Len() - 17, 12));
  }

  /** A plan for some bitmaps that a chunk can hold. */
  ghost predicate Encodable(p: Plan, groups: seq<Group>, out: seq<byte>)
  {
    && p.Valid() && p.GroupsOk(groups, Text(out, 8)) && |out| <= p.goal <= |out| + MAX_DECMP_CHUNK_SIZE
    && var l := LayoutOf(p, groups, Text(out, 8));
    l.Len() < 0x1000000 && l.Len() != p.goal - |out| + 6
  }

  function Encoded(p: Plan, groups: seq<Group>, out: seq<byte>): (r: seq<byte>)
    requires Encodable(p, groups, out)
    ensures |r| == LayoutOf(p, groups, Text(out, 8)).Len()
  {
    LayoutOf(p, groups, Text(out, 8)).Encoded(p.goal - |out|)
  }

  /** It is decoded to what they stand for. */
  lemma ChunkRead(before: seq<byte>, p: Plan, groups: seq<Group>, out: seq<byte>, rest: seq<byte>, room: nat)
    requires Encodable(p, groups, out) && p.goal <= room
    ensures OneChunk(before + (Encoded(p, groups, out) + rest), |before|, out, room) ==
      Good(p.GroupsText(groups, Text(out, 8)).out, |Encoded(p, groups, out)|, p.goal - |out|)
  {
    hide U24, BmapsAt, Chunk.Bitmaps, Layout.Encoded, Plan.GroupsOk, Plan.GroupsText, GroupsAreas, GroupsNibs;
    hide Packed, TableBytes, Number, OneChunk, Here, Fits, NibsHere, Plan.Valid;
    var text, at, n := Text(out, 8), |before|, p.goal - |out|;
    var l := LayoutOf(p, groups, text);
    var src := before + (l.Encoded(n) + rest);
    HeaderRead(before, l, n, rest);
    var base := at + l.Len() - 17;
    var c := Chunk(src, at + l.Len(), p.goal, BmapsAt(src, base, 12));
    var cur := Cursor(out, 8, at + 15, at + l.Off1(), at + l.Off2(), 2 * (at + l.Off3()));
    AreasRead(before, l, n, rest, c);
    TableFits(c, p, base);
    FitsValid(c, p);
    NibsRead(c, at + l.Off3(), GroupsNibs(p, groups, text));
    GroupsRead(c, p, groups, text, cur);
    TakenAs(src, at, l, out, n, room, c, cur);
  }

  lemma TableFits(c: Chunk, p: Plan, base: nat)
    requires p.Valid() && c.goal == p.goal && Here(c, base, TableBytes(p)) && c.end == base + 17
    requires c.bitmaps == BmapsAt(c.src, base, 12)
    ensures Fits(c, p)
  {
    hide BmapsAt, TableBytes, Number;
    TableRead(c.src, base, p, 12);
  }

  // Whole streams

  /** A chunk that is stored, or one with bitmaps. */
  datatype Piece = Stored(text: seq<byte>) | Coded(plan: Plan, groups: seq<Group>)

  ghost predicate PieceOk(x: Piece, out: seq<byte>) {
    match x
    case Stored(text) => 0 < |text| <= MAX_DECMP_CHUNK_SIZE
    case Coded(p, groups) => Encodable(p, groups, out) && p.goal > |out|
  }

  function PieceText(x: Piece, out: seq<byte>): (r: seq<byte>)
    requires PieceOk(x, out)
    ensures |out| < |r|
  {
    match x
    case Stored(text) => out + text
    case Coded(p, groups) => p.GroupsText(groups, Text(out, 8)).out
  }

  function PieceBytes(x: Piece, out: seq<byte>): seq<byte>
    requires PieceOk(x, out)
  {
    match x
    case Stored(text) => Bytes24(|text| + 6) + Bytes24(|text|) + text
    case Coded(p, groups) => Encoded(p, groups, out)
  }

  ghost predicate PiecesOk(xs: seq<Piece>, out: seq<byte>)
    decreases |xs|
  {
    xs == [] || (PieceOk(xs[0], out) && PiecesOk(xs[1..], PieceText(xs[0], out)))
  }

  function PiecesText(xs: seq<Piece>, out: seq<byte>): (r: seq<byte>)
    requires PiecesOk(xs, out)
    ensures |out| <= |r|
    decreases |xs|
  {
    if xs == [] then out else PiecesText(xs[1..], PieceText(xs[0], out))
  }

  /** The last chunk has no output. */
  function PiecesBytes(xs: seq<Piece>, out: seq<byte>): seq<byte>
    requires PiecesOk(xs, out)
    decreases |xs|
  {
    if xs == [] then Bytes24(6) + Bytes24(0)
    else PieceBytes(xs[0], out) + PiecesBytes(xs[1..], PieceText(xs[0], out))
  }

  lemma {:induction false} PiecesRead(before: seq<byte>, xs: seq<Piece>, out: seq<byte>, room: nat)
    requires PiecesOk(xs, out) && |PiecesText(xs, out)| <= room
    ensures Chunks(before + PiecesBytes(xs, out), |before|, out, room) == Output(PiecesText(xs, out))
    decreases |xs|
  {
    hide OneChunk, Bytes24, Encodable, PieceText;
    if xs == [] {
      StoredOne(before, [], [], out, room);
      assert Bytes24(6) + Bytes24(0) + [] + [] == Bytes24(6) + Bytes24(0);
      assert out + [] == out;
    } else {
      var x, out2 := xs[0], PieceText(xs[0], out);
      var b, rest := PieceBytes(x, out), PiecesBytes(xs[1..], out2);
      PieceRead(before, x, out, rest, room);
      PiecesRead(before + b, xs[1..], out2, room);
      assert before + b + rest == before + (b + rest);
    }
  }

  lemma PieceRead(before: seq<byte>, x: Piece, out: seq<byte>, rest: seq<byte>, room: nat)
    requires PieceOk(x, out) && |PieceText(x, out)| <= room
    ensures var out2 := PieceText(x, out);
      OneChunk(before + (PieceBytes(x, out) + rest), |before|, out, room) ==
        Good(out2, |PieceBytes(x, out)|, |out2| - |out|)
  {
    hide OneChunk, Bytes24, Encodable, Encoded;
    match x
    case Stored(text) =>
      StoredOne(before, text, rest, out, room);
      HeaderLen(|text|);
    case Coded(p, groups) => ChunkRead(before, p, groups, out, rest, room);
  }

  /** Any stream of chunks is decoded to what they stand for, one after the other. */
  lemma RoundTrip(xs: seq<Piece>, room: nat)
    requires PiecesOk(xs, []) && |PiecesText(xs, [])| <= room
    ensures Decode(MAGIC + PiecesBytes(xs, []), room) == Output(PiecesText(xs, []))
  {
    hide PiecesOk, PiecesText, PiecesBytes, Chunks;
    PiecesRead(MAGIC, xs, [], room);
    assert (MAGIC + PiecesBytes(xs, []))[..4] == MAGIC;
  }

  // One stream, byte by byte

  function Zeros(): seq<byte> { [0, 0, 0, 0, 0, 0, 0, 0, 0, 0, 0, 0, 0, 0, 0, 0] }

  function Eight(): (r: seq<byte>)
    ensures |r| == 8
  {
    [1, 2, 3, 4, 5, 6, 7, 8]
  }

  const ALL: seq<bool> := [true, true, true, true, true, true, true, true]

  const NONE: seq<bool> := [false, false, false, false, false, false, false, false]

  function Header(): seq<byte> { [0x29, 0, 0, 8, 0, 0, 0x17, 0, 0, 0x17, 0, 0, 0x17, 0, 0] }

  /** Eight literals, with the first bitmap of the table. */
  function Small(): seq<byte> { MAGIC + Header() + Eight() + [3] + ([0xFF] + Zeros()) + [6, 0, 0, 0, 0, 0] }

  function SmallPlan(): (p: Plan)
    ensures p.goal == 8
  {
    Plan([Entry(ALL, 0)] + seq(11, _ => Entry(NONE, 0)), 8)
  }

  function Once(): Group { Group(3, [App(ALL, 0, Eight())]) }

  lemma {:induction false} NoneSet(n: nat)
    ensures Bytes(seq(8 * n, _ => false)) == seq(n, _ => 0)
  {
    if n > 0 {
      NoneSet(n - 1);
      var bits := seq(8 * n, _ => false);
      assert bits[..8] == NONE && bits[8..] == seq(8 * (n - 1), _ => false);
      EightNumbers();
    }
  }

  lemma EightNumbers()
    ensures Number(NONE) == 0 && Number(ALL) == 255
  {
    assert Number([]) == 0;
    assert Number([false]) == 0 && Number([true]) == 1;
    assert NONE[6..][1..] == [false] && ALL[6..][1..] == [true];
    assert Number(NONE[6..]) == 0 && Number(ALL[6..]) == 3;
    assert NONE[5..][1..] == NONE[6..] && ALL[5..][1..] == ALL[6..];
    assert NONE[4..][1..] == NONE[5..] && ALL[4..][1..] == ALL[5..];
    assert Number(NONE[4..]) == 0 && Number(ALL[4..]) == 15;
    assert NONE[3..][1..] == NONE[4..] && ALL[3..][1..] == ALL[4..];
    assert NONE[2..][1..] == NONE[3..] && ALL[2..][1..] == ALL[3..];
    assert Number(NONE[2..]) == 0 && Number(ALL[2..]) == 63;
    assert NONE[1..][1..] == NONE[2..] && ALL[1..][1..] == ALL[2..];
  }

  lemma SmallTable()
    ensures SmallPlan().Valid() && TableBytes(SmallPlan()) == [0xFF] + Zeros()
  {
    hide Number, Bytes;
    var table := SmallPlan().table;
    var bits := TableBits(table) + seq(16, _ => false);
    forall k | 0 <= k < 120
      ensures bits[k] == (k < 8)
    {
      EntryAt(table, k / 10);
      assert bits[k] == TableBits(table)[10 * (k / 10)..10 * (k / 10) + 10][k % 10];
    }
    assert bits == ALL + seq(8 * 16, _ => false);
    FirstByte(ALL, seq(8 * 16, _ => false));
    NoneSet(16);
    EightNumbers();
  }

  lemma FirstByte(bits: seq<bool>, rest: seq<bool>)
    requires |bits| == 8 && |rest| % 8 == 0
    ensures Bytes(bits + rest) == [Number(bits)] + Bytes(rest)
  {
    assert (bits + rest)[..8] == bits && (bits + rest)[8..] == rest;
  }

  lemma {:induction false} AllLiterals(bits: seq<bool>, lits: seq<byte>, period: nat, out: seq<byte>)
    requires |lits| == |bits| && forall i :: 0 <= i < |bits| ==> bits[i]
    ensures Extends(bits, lits, period, out) && Extended(bits, lits, period, out) == out + lits
    decreases |bits|
  {
    if bits != [] {
      AllLiterals(bits[1..], lits[1..], period, out + [lits[0]]);
      assert out + [lits[0]] + lits[1..] == out + lits;
    }
  }

  lemma SmallApp()
    ensures SmallPlan().Valid()
    ensures var app, text := App(ALL, 0, Eight()), Text([], 8);
      && SmallPlan().AppOk(3, app, text) && SmallPlan().AppText(3, app, text) == Text(Eight(), 8)
      && AppAreas(SmallPlan(), 3, app, text) == Areas(Eight(), [], [])
  {
    hide Bytes, Extends, Extended, TableBytes, Number;
    SmallTable();
    AllLiterals(ALL, Eight(), 8, []);
    assert [] + Eight() == Eight();
  }

  lemma SmallGroup()
    ensures SmallPlan().Valid() && SmallPlan().GroupsOk([Once()], Text([], 8))
    ensures SmallPlan().GroupsText([Once()], Text([], 8)) == Text(Eight(), 8)
    ensures GroupsAreas(SmallPlan(), [Once()], Text([], 8)) == Areas(Eight(), [], [])
    ensures GroupsNibs(SmallPlan(), [Once()], Text([], 8)) == [3]
  {
    hide Plan.Valid, Plan.AppOk, Plan.AppText, AppAreas;
    SmallApp();
    var p, g, text := SmallPlan(), Once(), Text([], 8);
    assert g.apps[1..] == [];
    assert p.AppsOk(3, g.apps, text) && p.AppsText(3, g.apps, text) == Text(Eight(), 8);
    assert AppsAreas(p, 3, g.apps, text) == Areas(Eight(), [], []);
    assert [g][1..] == [];
  }

  lemma SmallLayout()
    ensures SmallPlan().Valid() && SmallPlan().GroupsOk([Once()], Text([], 8))
    ensures var l := LayoutOf(SmallPlan(), [Once()], Text([], 8));
      l == Layout(Areas(Eight(), [], []), [3], [0xFF] + Zeros())
  {
    hide Plan.Valid, Plan.GroupsOk, GroupsAreas, GroupsNibs, TableBytes;
    SmallGroup();
    SmallTable();
  }

  lemma SmallBytes(l: Layout)
    requires l == Layout(Areas(Eight(), [], []), [3], [0xFF] + Zeros())
    ensures l.Len() == 41
    ensures l.Encoded(8) == Header() + Eight() + [3] + ([0xFF] + Zeros())
  {
    assert l.Body() == Eight() + [3] + ([0xFF] + Zeros());
    assert Bytes24(0x29) == [0x29, 0, 0] && Bytes24(8) == [8, 0, 0] && Bytes24(0x17) == [0x17, 0, 0];
  }

  lemma OnePiece(p: Plan, groups: seq<Group>, room: nat, end: seq<byte>)
    requires Encodable(p, groups, []) && 0 < p.goal <= room && end == Bytes24(6) + Bytes24(0)
    ensures Decode(MAGIC + (Encoded(p, groups, []) + end), room) == Output(p.GroupsText(groups, Text([], 8)).out)
  {
    hide Encodable, Encoded, Plan.GroupsText, Decode, Bytes24;
    var x := Coded(p, groups);
    assert [x][1..] == [];
    RoundTrip([x], room);
  }

  lemma Joined(a: seq<byte>, b: seq<byte>, c: seq<byte>, d: seq<byte>, e: seq<byte>, f: seq<byte>)
    ensures a + (b + c + d + e + f) == a + b + c + d + e + f
  {
  }

  lemma SmallFrom(p: Plan, g: Group, head: seq<byte>, lits: seq<byte>, nib: seq<byte>, table: seq<byte>, end: seq<byte>)
    requires p.Valid() && p.GroupsOk([g], Text([], 8)) && p.goal == 8 && end == Bytes24(6) + Bytes24(0)
    requires LayoutOf(p, [g], Text([], 8)).Len() == 41
    requires LayoutOf(p, [g], Text([], 8)).Encoded(8) == head + lits + nib + table
    requires p.GroupsText([g], Text([], 8)).out == lits
    ensures Decode(MAGIC + head + lits + nib + table + end, 8) == Output(lits)
  {
    hide Plan.Valid, Plan.GroupsOk, Plan.GroupsText, LayoutOf, Layout.Encoded, Decode, Layout.Len, Bytes24;
    OnePiece(p, [g], 8, end);
    Joined(MAGIC, head, lits, nib, table, end);
  }

  /** The bytes of a small stream are decoded to eight others. */
  lemma SmallStream()
    ensures Decode(Small(), 8) == Output(Eight())
  {
    hide Plan.Valid, Plan.GroupsOk, Plan.GroupsText, LayoutOf, Layout.Encoded, Decode, Layout.Len;
    hide SmallPlan, Once, Eight, Zeros, Header;
    SmallGroup();
    SmallLayout();
    SmallBytes(LayoutOf(SmallPlan(), [Once()], Text([], 8)));
    assert Bytes24(6) + Bytes24(0) == [6, 0, 0, 0, 0, 0];
    SmallFrom(SmallPlan(), Once(), Header(), Eight(), [3], [0xFF] + Zeros(), [6, 0, 0, 0, 0, 0]);
  }
}
