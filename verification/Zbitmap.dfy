/** LZBITMAP decompression (libzbitmap.c). A chunk is a sequence of bitmaps, each for eight
    output bytes: a set bit is a literal byte from the data area, and a clear one repeats
    the byte that was written one period before. Any input is allowed. */
module Zbitmap {

  type byte = x: int | 0 <= x < 256

  const MAGIC: seq<byte> := [0x5A, 0x42, 0x4D, 0x09]
  const MAX_DECMP_CHUNK_SIZE := 0x8000

  datatype Bmap = Bmap(bits: byte, periodBytes: nat)

  datatype Status = Ok | Invalid | OutOfRange

  function Bit(b: byte, i: nat): bool
    requires i < 8
  {
    if i == 0 then b % 2 == 1 else Bit(b / 2, i - 1)
  }

  /** zbm_u24_to_u32() */
  function U24(src: seq<byte>, at: nat): nat
    requires at + 3 <= |src|
  {
    var low: int, mid: int, high: int := src[at], src[at + 1], src[at + 2];
    low + 256 * mid + 65536 * high
  }

  // What a chunk means

  /** How far decompression has got: the output, the current period, and the positions in
      the data and metadata areas. The last one counts half-bytes. */
  datatype Cursor = Cursor(out: seq<byte>, period: nat, data: nat, meta1: nat, meta2: nat, meta3: nat)

  datatype Result = Failed | Done(cur: Cursor)

  /** The chunk: the input, its end, the total output length at the end of the chunk, and
      the array of bitmaps. */
  datatype Chunk = Chunk(src: seq<byte>, end: nat, goal: nat, bitmaps: seq<Bmap>) {
    predicate Valid() {
      end <= |src| && |bitmaps| == 12 && forall i :: 0 <= i < 12 ==> bitmaps[i].periodBytes <= 2
    }

    /** The bytes from i to 8 of a bitmap. */
    function CopyBits(bits: byte, i: nat, cur: Cursor): (r: Result)
      requires Valid() && i <= 8 && cur.period > 0
      ensures r.Done? ==> cur.out <= r.cur.out && r.cur == cur.(out := r.cur.out, data := r.cur.data)
      ensures r.Done? && |cur.out| <= goal ==> |r.cur.out| <= goal
      ensures r.Done? && |cur.out| < goal && i < 8 ==> |r.cur.out| > |cur.out|
      decreases 8 - i
    {
      if i == 8 || |cur.out| == goal then Done(cur)
      else if Bit(bits, i) then
        if cur.data >= end then Failed
        else CopyBits(bits, i + 1, cur.(out := cur.out + [src[cur.data]], data := cur.data + 1))
      else
        if |cur.out| < cur.period then Failed
        else CopyBits(bits, i + 1, cur.(out := cur.out + [cur.out[|cur.out| - cur.period]]))
    }

    /** A new period of up to two bytes, if there is one. */
    function ReadPeriod(count: nat, cur: Cursor): Result
      requires Valid() && count <= 2
    {
      if count == 0 then Done(cur)
      else if cur.meta1 + count > end then Failed
      else
        var low: int := src[cur.meta1];
        var high: int := if count == 1 then 0 else src[cur.meta1 + 1];
        Done(cur.(period := low + 256 * high, meta1 := cur.meta1 + count))
    }

    function ApplyBitmap(bmap: Bmap, cur: Cursor): (r: Result)
      requires Valid() && bmap.periodBytes <= 2
      ensures r.Done? ==> cur.out <= r.cur.out && r.cur.meta3 == cur.meta3
      ensures r.Done? && |cur.out| <= goal ==> |r.cur.out| <= goal
      ensures r.Done? && |cur.out| < goal ==> |r.cur.out| > |cur.out|
    {
      match ReadPeriod(bmap.periodBytes, cur)
      case Failed => Failed
      case Done(cur2) => if cur2.period == 0 then Failed else CopyBits(bmap.bits, 0, cur2)
    }

    /** Bitmaps 0 to 2 come from the second metadata area, with that many period bytes. */
    function ApplyNumber(number: nat, cur: Cursor): (r: Result)
      requires Valid() && number < 16
      ensures r.Done? ==> cur.out <= r.cur.out && r.cur.meta3 == cur.meta3
      ensures r.Done? && |cur.out| <= goal ==> |r.cur.out| <= goal
      ensures r.Done? && |cur.out| < goal ==> |r.cur.out| > |cur.out|
    {
      if number == 15 then Failed
      else if number > 2 then ApplyBitmap(bitmaps[number - 3], cur)
      else if cur.meta2 >= end then Failed
      else ApplyBitmap(Bmap(src[cur.meta2], number), cur.(meta2 := cur.meta2 + 1))
    }

    function Nibble(n: nat): nat
      requires Valid() && n / 2 < end
    {
      if n % 2 == 0 then src[n / 2] % 16 else src[n / 2] / 16
    }

    /** The rest of a repetition count: nibbles add up until one that is not 15. */
    function CountFrom(n: nat, total: nat): (r: (bool, nat, nat))
      requires Valid()
      ensures r.0 ==> r.1 >= n
      decreases 2 * end - n
    {
      if n / 2 >= end then (false, n, 0)
      else
        var x := Nibble(n);
        if total + x >= 65536 then (false, n, 0)
        else if x == 15 then CountFrom(n + 1, total + x)
        else (true, n + 1, total + x)
    }

    /** How many times to apply the bitmap, and the position of the next nibble. */
    function RepeatCount(cur: Cursor): (r: (bool, nat, nat))
      requires Valid() && |cur.out| <= goal
      ensures r.0 ==> r.2 > 0
    {
      if goal - |cur.out| <= 8 then (true, cur.meta3, 1)
      else if cur.meta3 / 2 >= end then (false, cur.meta3, 0)
      else if Nibble(cur.meta3) != 15 then (true, cur.meta3, 1)
      else CountAbove(cur.meta3 + 1, 4); CountFrom(cur.meta3 + 1, 4)
    }

    lemma CountAbove(n: nat, total: nat)
      requires Valid()
      ensures CountFrom(n, total).0 ==> CountFrom(n, total).2 >= total
      decreases 2 * end - n
    {
      if n / 2 < end && Nibble(n) == 15 { CountAbove(n + 1, total + 15); }
    }

    function Repeat(number: nat, times: nat, cur: Cursor): (r: Result)
      requires Valid() && number < 16
      ensures r.Done? ==> cur.out <= r.cur.out && r.cur.meta3 == cur.meta3
      ensures r.Done? && |cur.out| <= goal ==> |r.cur.out| <= goal
      ensures r.Done? && |cur.out| < goal && times > 0 ==> |r.cur.out| > |cur.out|
      decreases times
    {
      if times == 0 then Done(cur)
      else
        match ApplyNumber(number, cur)
        case Failed => Failed
        case Done(cur2) => Repeat(number, times - 1, cur2)
    }

    function SingleBitmap(cur: Cursor): (r: Result)
      requires Valid() && |cur.out| <= goal
      ensures r.Done? ==> cur.out <= r.cur.out && |r.cur.out| <= goal
      ensures r.Done? && |cur.out| < goal ==> |r.cur.out| > |cur.out|
    {
      if cur.meta3 / 2 >= end then Failed
      else
        var number := Nibble(cur.meta3);
        var next := cur.(meta3 := cur.meta3 + 1);
        var (ok, meta3, times) := RepeatCount(next);
        if !ok then Failed else Repeat(number, times, next.(meta3 := meta3))
    }

    /** All of the chunk: bitmaps until the output is as long as it should be. */
    function Bitmaps(cur: Cursor): (r: Result)
      requires Valid() && |cur.out| <= goal
      ensures r.Done? ==> cur.out <= r.cur.out && |r.cur.out| == goal
      decreases goal - |cur.out|
    {
      if |cur.out| == goal then Done(cur)
      else
        match SingleBitmap(cur)
        case Failed => Failed
        case Done(cur2) => Bitmaps(cur2)
    }
  }

  // The array of bitmaps at the end of a chunk

  /** n bits from position k of an area, the lowest first. */
  function BitField(src: seq<byte>, base: nat, k: nat, n: nat): (x: nat)
    requires n <= 8 && (n == 0 || base + (k + n - 1) / 8 < |src|)
    ensures x < Power(n)
  {
    if n == 0 then 0
    else
      var i := k + n - 1;
      BitField(src, base, k, n - 1) + if Bit(src[base + i / 8], i % 8) then Power(n - 1) else 0
  }

  function Power(n: nat): (p: nat)
    ensures p > 0 && (n <= 8 ==> p <= 256)
  {
    match n
    case 0 => 1
    case 1 => 2
    case 2 => 4
    case 3 => 8
    case 4 => 16
    case 5 => 32
    case 6 => 64
    case 7 => 128
    case 8 => 256
    case _ => 512
  }

  /** Twelve bitmaps of ten bits each; the last two give the number of period bytes. */
  function BmapAt(src: seq<byte>, base: nat, i: nat): Bmap
    requires i < 12 && base + 17 <= |src|
  {
    Bmap(BitField(src, base, 10 * i, 8), BitField(src, base, 10 * i + 8, 2))
  }

  function BmapsAt(src: seq<byte>, base: nat, n: nat): (r: seq<Bmap>)
    requires n <= 12 && base + 17 <= |src|
    ensures |r| == n
  {
    if n == 0 then [] else BmapsAt(src, base, n - 1) + [BmapAt(src, base, n - 1)]
  }

  predicate BmapsOk(bmaps: seq<Bmap>) { forall i :: 0 <= i < |bmaps| ==> bmaps[i].periodBytes <= 2 }

  // Whole chunks

  datatype Outcome = Bad(status: Status) | Good(out: seq<byte>, len: nat, decmpLen: nat)

  function Compressed(src: seq<byte>, at: nat, len: nat, decmpLen: nat, out: seq<byte>): (r: Outcome)
    requires at + len <= |src|
    ensures r.Bad? ==> r.status == Invalid
    ensures r.Good? ==>
      len >= 17 && out <= r.out && |r.out| == |out| + decmpLen && r.len == len && r.decmpLen == decmpLen
  {
    if len < 15 then Bad(Invalid)
    else
      var off1, off2, off3 := U24(src, at + 6), U24(src, at + 9), U24(src, at + 12);
      if off1 >= len || off2 >= len || off3 >= len || len < 17 then Bad(Invalid)
      else
        var bmaps := BmapsAt(src, at + len - 17, 12);
        if !BmapsOk(bmaps) then Bad(Invalid)
        else
          match Chunk(src, at + len, |out| + decmpLen,
            bmaps).Bitmaps(Cursor(out, 8, at + 15, at + off1, at + off2, 2 * (at + off3)))
          case Failed => Bad(Invalid)
          case Done(cur) => Good(cur.out, len, decmpLen)
  }

  /** The next chunk, after some output and with room for more up to a total. */
  function OneChunk(src: seq<byte>, at: nat, out: seq<byte>, room: nat): (r: Outcome)
    requires at <= |src| && |out| <= room
    ensures r.Good? ==> 0 < r.len <= |src| - at && out <= r.out && |r.out| == |out| + r.decmpLen <= room
  {
    if |src| - at < 6 then Bad(Invalid)
    else
      var len, decmpLen := U24(src, at), U24(src, at + 3);
      if len > |src| - at || decmpLen > MAX_DECMP_CHUNK_SIZE then Bad(Invalid)
      else if decmpLen > room - |out| then Bad(OutOfRange)
      else if len == decmpLen + 6 then Good(out + src[at + 6..at + len], len, decmpLen)
      else Compressed(src, at, len, decmpLen, out)
  }

  datatype Decoded = Error(status: Status) | Output(out: seq<byte>)

  /** Chunks until one with no output. */
  function Chunks(src: seq<byte>, at: nat, out: seq<byte>, room: nat): (r: Decoded)
    requires at <= |src| && |out| <= room
    ensures r.Output? ==> out <= r.out && |r.out| <= room
    decreases |src| - at
  {
    match OneChunk(src, at, out, room)
    case Bad(status) => Error(status)
    case Good(out2, len, decmpLen) => if decmpLen == 0 then Output(out2) else Chunks(src, at + len, out2, room)
  }

  function Decode(src: seq<byte>, room: nat): (r: Decoded)
    ensures r.Output? ==> |r.out| <= room
  {
    if |src| < 4 || src[..4] != MAGIC then Error(Invalid) else Chunks(src, 4, [], room)
  }

  /** How many of the bits from i to j are set. */
  function Ones(bits: byte, i: nat, j: nat): nat
    requires i <= j <= 8
    decreases j - i
  {
    if i == j then 0 else (if Bit(bits, i) then 1 else 0) + Ones(bits, i + 1, j)
  }

  /** The byte for one bit of a bitmap. */
  function NextByte(c: Chunk, bits: byte, i: nat, cur: Cursor): Cursor
    requires c.Valid() && i < 8 && cur.period > 0 &&
      (if Bit(bits, i) then cur.data < c.end else |cur.out| >= cur.period)
  {
    if Bit(bits, i) then cur.(out := cur.out + [c.src[cur.data]], data := cur.data + 1)
    else cur.(out := cur.out + [cur.out[|cur.out| - cur.period]])
  }

  lemma CopyStep(c: Chunk, bits: byte, i: nat, cur: Cursor)
    requires c.Valid() && i <= 8 && cur.period > 0 && c.CopyBits(bits, i, cur).Done?
    ensures |c.CopyBits(bits, i, cur).cur.out| > |cur.out| ==>
      i < 8 && (if Bit(bits, i) then cur.data < c.end else |cur.out| >= cur.period) &&
      c.CopyBits(bits, i, cur) == c.CopyBits(bits, i + 1, NextByte(c, bits, i, cur))
  {
  }

  lemma CopyCase(c: Chunk, bits: byte, i: nat, cur: Cursor)
    requires c.Valid() && i <= 8 && cur.period > 0
    ensures i == 8 || |cur.out| == c.goal ==> c.CopyBits(bits, i, cur) == Done(cur)
    ensures i < 8 && |cur.out| != c.goal ==>
      c.CopyBits(bits, i, cur) ==
      if if Bit(bits, i) then cur.data < c.end else |cur.out| >= cur.period
      then c.CopyBits(bits, i + 1, NextByte(c, bits, i, cur)) else Failed
  {
  }

  /** What a bitmap does: each of its bytes is the next literal, or the same as the byte one
      period before, which is there already. */
  lemma {:induction false} CopyMeaning(c: Chunk, bits: byte, i: nat, cur: Cursor, p: nat)
    requires c.Valid() && i <= 8 && cur.period > 0 && c.CopyBits(bits, i, cur).Done?
    requires |cur.out| <= p < |c.CopyBits(bits, i, cur).cur.out|
    ensures var out, j := c.CopyBits(bits, i, cur).cur.out, i + p - |cur.out|;
      && j < 8
      && if Bit(bits, j) then cur.data + Ones(bits, i, j) < c.end && out[p] == c.src[cur.data + Ones(bits, i, j)]
         else p >= cur.period && out[p] == out[p - cur.period]
    decreases 8 - i
  {
    hide Bit, Chunk.CopyBits;
    CopyStep(c, bits, i, cur);
    if p > |cur.out| {
      CopyMeaning(c, bits, i + 1, NextByte(c, bits, i, cur), p);
    }
  }

  // Stored data

  function Bytes24(n: nat): (r: seq<byte>)
    requires n < 0x1000000
  {
    [n % 256, n / 256 % 256, n / 65536]
  }

  /** A string without compression, in chunks of the largest size. */
  function Stored(x: seq<byte>): seq<byte> {
    var n := if |x| < MAX_DECMP_CHUNK_SIZE then |x| else MAX_DECMP_CHUNK_SIZE;
    Bytes24(n + 6) + Bytes24(n) + x[..n] + if n == 0 then [] else Stored(x[n..])
  }

  lemma ReadsBack(a: seq<byte>, n: nat, b: seq<byte>)
    requires n < 0x1000000
    ensures U24(a + Bytes24(n) + b, |a|) == n
  {
    var s := a + Bytes24(n) + b;
    assert s[|a|] == n % 256 && s[|a| + 1] == n / 256 % 256 && s[|a| + 2] == n / 65536;
  }

  /** A chunk with a plain header is copied as it is. */
  lemma StoredOne(before: seq<byte>, x: seq<byte>, rest: seq<byte>, out: seq<byte>, room: nat)
    requires |out| + |x| <= room && |x| <= MAX_DECMP_CHUNK_SIZE
    ensures var src := before + (Bytes24(|x| + 6) + Bytes24(|x|) + x + rest);
      OneChunk(src, |before|, out, room) == Good(out + x, |x| + 6, |x|)
  {
    hide Bytes24;
    var n, h := |x|, Bytes24(|x| + 6) + Bytes24(|x|);
    var src := before + (h + x + rest);
    assert |h| == 6 by { HeaderLen(n); }
    StoredHeader(before, n, x + rest);
    assert src == before + Bytes24(n + 6) + Bytes24(n) + (x + rest);
    assert src[|before| + 6..|before| + 6 + n] == x;
  }

  lemma HeaderLen(n: nat)
    requires n + 6 < 0x1000000
    ensures |Bytes24(n + 6) + Bytes24(n)| == 6
  {
  }

  lemma {:induction false} StoredChunks(before: seq<byte>, x: seq<byte>, out: seq<byte>, room: nat)
    requires |out| + |x| <= room
    ensures Chunks(before + Stored(x), |before|, out, room) == Output(out + x)
    decreases |x|
  {
    hide Bytes24, OneChunk;
    var n := if |x| < MAX_DECMP_CHUNK_SIZE then |x| else MAX_DECMP_CHUNK_SIZE;
    var rest := if n == 0 then [] else Stored(x[n..]);
    StoredOne(before, x[..n], rest, out, room);
    if n == 0 {
      assert out + x[..n] == out + x;
    } else {
      var h := Bytes24(n + 6) + Bytes24(n);
      HeaderLen(n);
      StoredChunks(before + h + x[..n], x[n..], out + x[..n], room);
      assert before + h + x[..n] + rest == before + (h + x[..n] + rest);
      assert out + x[..n] + x[n..] == out + x;
    }
  }

  lemma StoredHeader(before: seq<byte>, n: nat, b: seq<byte>)
    requires n + 6 < 0x1000000
    ensures var src := before + Bytes24(n + 6) + Bytes24(n) + b;
      U24(src, |before|) == n + 6 && U24(src, |before| + 3) == n
  {
    ReadsBack(before, n + 6, Bytes24(n) + b);
    ReadsBack(before + Bytes24(n + 6), n, b);
    assert before + Bytes24(n + 6) + (Bytes24(n) + b) == before + Bytes24(n + 6) + Bytes24(n) + b;
  }

  /** Whatever is stored is read back. */
  lemma StoredRoundTrip(x: seq<byte>, room: nat)
    requires |x| <= room
    ensures Decode(MAGIC + Stored(x), room) == Output(x)
  {
    hide Stored;
    StoredChunks(MAGIC, x, [], room);
    assert (MAGIC + Stored(x))[..4] == MAGIC;
    assert [] + x == x;
  }

  /** A position in half-bytes, as the byte and which half of it. */
  lemma NibblePos(addr: nat, half: nat)
    requires half < 2
    ensures (2 * addr + half) / 2 == addr && (2 * addr + half) % 2 == half
  {
  }

  // Asking only for the length

  /** The loop of zbm_decompress() for a NULL destination: the state after an iteration, or
      the result. */
  datatype Length = Stop(ok: bool, total: nat) | Go(at: nat, total: nat)

  predicate HeaderOk(src: seq<byte>, at: nat) {
    at + 6 <= |src| && at + U24(src, at) <= |src| && U24(src, at + 3) <= MAX_DECMP_CHUNK_SIZE
  }

  function LengthStep(src: seq<byte>, at: nat, total: nat): Length {
    if !HeaderOk(src, at) then Stop(false, 0)
    else if U24(src, at + 3) == 0 then Stop(true, total)
    else Go(at + U24(src, at), total + U24(src, at + 3))
  }

  function LengthRun(src: seq<byte>, at: nat, total: nat, steps: nat): Length
    decreases steps
  {
    if steps == 0 then Go(at, total)
    else
      match LengthStep(src, at, total)
      case Stop(ok, t) => Stop(ok, t)
      case Go(at2, total2) => LengthRun(src, at2, total2, steps - 1)
  }

  /** There is an empty chunk ahead that claims some output. */
  predicate Stuck(src: seq<byte>, at: nat)
    decreases if at <= |src| then |src| - at else 0
  {
    HeaderOk(src, at) && U24(src, at + 3) != 0 && (U24(src, at) == 0 || Stuck(src, at + U24(src, at)))
  }

  /** Asking for the length of the output ends if and only if there is no such chunk. */
  lemma {:induction false} LengthEnds(src: seq<byte>, at: nat, total: nat)
    requires at <= |src|
    ensures (exists n :: LengthRun(src, at, total, n).Stop?) <==> !Stuck(src, at)
  {
    if Stuck(src, at) {
      forall n: nat
        ensures LengthRun(src, at, total, n).Go?
      {
        NeverEnds(src, at, total, n);
      }
    } else {
      Ends(src, at, total);
      assert LengthRun(src, at, total, |src| - at + 1).Stop?;
    }
  }

  lemma {:induction false} NeverEnds(src: seq<byte>, at: nat, total: nat, n: nat)
    requires Stuck(src, at)
    ensures LengthRun(src, at, total, n).Go?
    decreases n
  {
    if n > 0 { NeverEnds(src, at + U24(src, at), total + U24(src, at + 3), n - 1); }
  }

  lemma {:induction false} Ends(src: seq<byte>, at: nat, total: nat)
    requires at <= |src| && !Stuck(src, at)
    ensures LengthRun(src, at, total, |src| - at + 1).Stop?
    decreases |src| - at
  {
    if HeaderOk(src, at) && U24(src, at + 3) != 0 {
      var len := U24(src, at);
      Ends(src, at + len, total + U24(src, at + 3));
      MoreSteps(src, at + len, total + U24(src, at + 3), |src| - (at + len) + 1, |src| - at);
    }
  }

  lemma {:induction false} MoreSteps(src: seq<byte>, at: nat, total: nat, m: nat, n: nat)
    requires m <= n && LengthRun(src, at, total, m).Stop?
    ensures LengthRun(src, at, total, n) == LengthRun(src, at, total, m)
    decreases m
  {
    if LengthStep(src, at, total).Go? {
      MoreSteps(src, at + U24(src, at), total + U24(src, at + 3), m - 1, n - 1);
    }
  }

  /** The length that is reported for a stream is that of its output. */
  lemma {:induction false} LengthAgrees(src: seq<byte>, at: nat, out: seq<byte>, room: nat, turns: nat)
    requires at <= |src| && |out| <= room && Chunks(src, at, out, room).Output? && |src| - at < turns
    ensures LengthRun(src, at, |out|, turns) == Stop(true, |Chunks(src, at, out, room).out|)
    decreases |src| - at
  {
    hide U24, Compressed;
    var r := OneChunk(src, at, out, room);
    if r.decmpLen != 0 {
      LengthAgrees(src, at + r.len, r.out, room, turns - 1);
    }
  }

  /** A chunk of no bytes at all that claims one byte of output. */
  lemma StuckExample(n: nat)
    ensures Stuck(MAGIC + [0, 0, 0, 1, 0, 0], 4)
    ensures LengthRun(MAGIC + [0, 0, 0, 1, 0, 0], 4, 0, n).Go?
  {
    var src := MAGIC + [0, 0, 0, 1, 0, 0];
    assert U24(src, 4) == 0 && U24(src, 7) == 1;
    NeverEnds(src, 4, 0, n);
  }

  /** zbm_decompress() for a NULL destination, for as long as it takes or `turns` of its
      loop: as many as there are bytes are enough unless it never ends. */
  method DecompressedLength(src: seq<byte>, turns: nat) returns (r: Length)
    ensures |src| < 4 || src[..4] != MAGIC ==> r == Stop(false, 0)
    ensures |src| >= 4 && src[..4] == MAGIC ==>
      && r == LengthRun(src, 4, 0, turns)
      && (|src| < turns ==> (r.Stop? <==> !Stuck(src, 4)))
  {
    hide U24;
    if |src| < 4 || src[..4] != MAGIC {
      return Stop(false, 0);
    }
    if |src| < turns { LengthKnown(src, turns); }
    var at, total, left := 4, 0, turns;
    while left > 0
      invariant 4 <= at <= |src| && 0 <= total && LengthRun(src, 4, 0, turns) == LengthRun(src, at, total, left)
    {
      if |src| - at < 6 {
        return Stop(false, 0);
      }
      var len := U24(src, at);
      if len > |src| - at {
        return Stop(false, 0);
      }
      var decmpLen := U24(src, at + 3);
      if decmpLen > MAX_DECMP_CHUNK_SIZE {
        return Stop(false, 0);
      }
      if decmpLen == 0 {
        return Stop(true, total);
      }
      at, total, left := at + len, total + decmpLen, left - 1;
    }
    r := Go(at, total);
  }

  lemma LengthKnown(src: seq<byte>, turns: nat)
    requires 4 <= |src| < turns
    ensures LengthRun(src, 4, 0, turns).Stop? <==> !Stuck(src, 4)
  {
    if Stuck(src, 4) {
      NeverEnds(src, 4, 0, turns);
    } else {
      Ends(src, 4, 0);
      MoreSteps(src, 4, 0, |src| - 3, turns);
    }
  }
}
