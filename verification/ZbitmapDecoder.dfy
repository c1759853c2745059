/** The LZBITMAP decoder itself (libzbitmap.c), which writes to the destination buffer in
    place. Every access is in range for any input, and the output is what Zbitmap says. */
module ZbitmapDecoder {
  import opened Zbitmap

  class Decoder {
    const dest: array<byte>
    const src: seq<byte>

    // Updated during a chunk read
    var pos: nat
    var destLeft: nat
    var written: nat
    var period: nat

    // Updated right before a chunk read
    var srcEnd: nat
    var len: nat
    var decmpLen: nat

    // Updated after a chunk read
    var at: nat
    var srcLeft: nat
    var prewritten: nat

    // Current position in the data and metadata areas
    var data: nat
    var meta1: nat
    var meta2: nat
    var nyblAddr: nat
    var nibble: nat
    var bitmaps: seq<Bmap>

    ghost function Rest(): Chunk
      reads this
    {
      Chunk(src, srcEnd, prewritten + decmpLen, bitmaps)
    }

    ghost function Cur(): Cursor
      requires pos <= dest.Length
      reads this, dest
    {
      Cursor(dest[..pos], period, data, meta1, meta2, 2 * nyblAddr + nibble)
    }

    /** There is room in the destination for the rest of the chunk. */
    ghost predicate InChunk()
      reads this
    {
      && pos == prewritten + written && pos + destLeft == dest.Length && written <= decmpLen <= written + destLeft
      && srcEnd <= |src| && Rest().Valid() && nibble < 2
    }

    method PutByte(b: byte)
      requires InChunk() && written < decmpLen
      modifies this`pos, this`destLeft, this`written, dest
      ensures InChunk() && pos == old(pos) + 1 && dest[..pos] == old(dest[..pos]) + [b]
    {
      dest[pos] := b;
      pos, destLeft, written := pos + 1, destLeft - 1, written + 1;
    }

    /** The loop over the bits in zbm_apply_bitmap(). */
    method CopyBytes(bits: byte) returns (ok: bool)
      requires InChunk() && period > 0
      modifies this`pos, this`destLeft, this`written, this`data, dest
      ensures InChunk()
      ensures var r := old(Rest().CopyBits(bits, 0, Cur())); if ok then r == Done(Cur()) else r.Failed?
    {
      hide Bit, Chunk.CopyBits;
      ghost var c, r := Rest(), Rest().CopyBits(bits, 0, Cur());
      var i := 0;
      while i < 8
        invariant i <= 8 && InChunk() && period > 0 && Rest() == c && r == c.CopyBits(bits, i, Cur())
      {
        CopyCase(c, bits, i, Cur());
        if written == decmpLen {
          return true;
        }
        ghost var cur := Cur();
        if Bit(bits, i) {
          if data >= srcEnd {
            return false;
          }
          PutByte(src[data]);
          data := data + 1;
        } else {
          if prewritten + written < period {
            return false;
          }
          PutByte(dest[pos - period]);
        }
        assert Cur() == NextByte(c, bits, i, cur);
        i := i + 1;
      }
      CopyCase(c, bits, i, Cur());
      ok := true;
    }

    /** The loop over the period bytes in zbm_apply_bitmap(). */
    method ReadPeriod(count: nat) returns (ok: bool)
      requires InChunk() && 0 < count <= 2
      modifies this`period, this`meta1
      ensures InChunk()
      ensures var r := old(Rest().ReadPeriod(count, Cur())); if ok then r == Done(Cur()) else r.Failed?
    {
      ghost var first := meta1;
      period := 0;
      var i, factor := 0, 1;
      while i < count
        invariant i <= count && InChunk() && meta1 == first + i && (i > 0 ==> meta1 <= srcEnd)
        invariant factor == if i == 0 then 1 else if i == 1 then 256 else 65536
        invariant i == 0 ==> period == 0
        invariant i == 1 ==> period == src[first]
        invariant i == 2 ==> var low: int, high: int := src[first], src[first + 1]; period == low + 256 * high
      {
        if meta1 >= srcEnd {
          return false;
        }
        var b: int := src[meta1];
        period := period + b * factor;
        factor := factor * 256;
        meta1 := meta1 + 1;
        i := i + 1;
      }
      ok := true;
    }

    /** zbm_apply_bitmap() */
    method ApplyBitmap(bmap: Bmap) returns (ok: bool)
      requires InChunk() && bmap.periodBytes <= 2
      modifies this`pos, this`destLeft, this`written, this`period, this`data, this`meta1, dest
      ensures InChunk()
      ensures var r := old(Rest().ApplyBitmap(bmap, Cur())); if ok then r == Done(Cur()) else r.Failed?
    {
      hide Bit, Chunk.CopyBits;
      if bmap.periodBytes > 0 {
        ok := ReadPeriod(bmap.periodBytes);
        if !ok {
          return;
        }
      }
      if period == 0 {
        return false;
      }
      ok := CopyBytes(bmap.bits);
    }

    /** zbm_apply_bitmap_number() */
    method ApplyNumber(number: nat) returns (ok: bool)
      requires InChunk() && number < 16
      modifies this`pos, this`destLeft, this`written, this`period, this`data, this`meta1, this`meta2, dest
      ensures InChunk()
      ensures var r := old(Rest().ApplyNumber(number, Cur())); if ok then r == Done(Cur()) else r.Failed?
    {
      hide Chunk.ApplyBitmap;
      if number == 0xf {
        return false;
      }
      if number > 2 {
        ok := ApplyBitmap(bitmaps[number - 3]);
        return;
      }
      if meta2 >= srcEnd {
        return false;
      }
      var next := Bmap(src[meta2], number);
      meta2 := meta2 + 1;
      ok := ApplyBitmap(next);
    }

    /** zbm_read_nibble() */
    method ReadNibble() returns (ok: bool, x: nat)
      requires InChunk()
      modifies this`nyblAddr, this`nibble
      ensures InChunk() && ok == ((2 * old(nyblAddr) + old(nibble)) / 2 < srcEnd)
      ensures ok ==> x == Rest().Nibble(2 * old(nyblAddr) + old(nibble)) < 16
      ensures 2 * nyblAddr + nibble == 2 * old(nyblAddr) + old(nibble) + if ok then 1 else 0
    {
      NibblePos(nyblAddr, nibble);
      x := 0;
      if nyblAddr >= srcEnd {
        return false, x;
      }
      if nibble == 0 {
        x := src[nyblAddr] % 16;
        nibble := 1;
      } else {
        x := src[nyblAddr] / 16 % 16;
        nibble := 0;
        nyblAddr := nyblAddr + 1;
      }
      ok := true;
    }

    /** zbm_rewind_nibble() */
    method RewindNibble()
      requires InChunk() && 2 * nyblAddr + nibble > 0
      modifies this`nyblAddr, this`nibble
      ensures InChunk() && 2 * nyblAddr + nibble == 2 * old(nyblAddr) + old(nibble) - 1
    {
      if nibble == 0 {
        nibble := 1;
        nyblAddr := nyblAddr - 1;
      } else {
        nibble := 0;
      }
    }

    /** zbm_read_repetition_count(); the total is kept in 16 bits. */
    method ReadRepetitionCount() returns (ok: bool, repeat: nat)
      requires InChunk()
      modifies this`nyblAddr, this`nibble
      ensures InChunk()
      ensures var r := old(Rest().RepeatCount(Cur()));
        ok == r.0 && (ok ==> 2 * nyblAddr + nibble == r.1 && repeat == r.2)
    {
      hide Chunk.CountFrom, Chunk.Nibble;
      repeat := 1;
      if decmpLen - written <= 8 {
        return true, repeat;
      }
      var x;
      ok, x := ReadNibble();
      if !ok {
        return;
      }
      if x != 0xf {
        RewindNibble();
        return;
      }
      ghost var c, r := Rest(), Rest().CountFrom(2 * nyblAddr + nibble, 4);
      var total := 4;
      while x == 0xf
        invariant InChunk() && Rest() == c && x < 16 && 0 <= total < 65536
        invariant if x == 0xf then r == c.CountFrom(2 * nyblAddr + nibble, total)
          else r == (true, 2 * nyblAddr + nibble, total)
        decreases 2 * srcEnd - (2 * nyblAddr + nibble), x
      {
        CountCase(c, 2 * nyblAddr + nibble, total);
        ok, x := ReadNibble();
        if !ok {
          return;
        }
        total := (total + x) % 65536;
        if total < x {
          return false, repeat;
        }
      }
      repeat := total;
    }

    /** zbm_decompress_single_bitmap() */
    method DecompressSingleBitmap() returns (ok: bool)
      requires InChunk()
      modifies this`pos, this`destLeft, this`written, this`period, this`data, this`meta1, this`meta2, this`nyblAddr,
        this`nibble, dest
      ensures InChunk()
      ensures var r := old(Rest().SingleBitmap(Cur())); if ok then r == Done(Cur()) else r.Failed?
    {
      hide Chunk.ApplyNumber, Chunk.RepeatCount, Chunk.Nibble;
      var number, repeat;
      ghost var c, r := Rest(), Rest().SingleBitmap(Cur());
      ok, number := ReadNibble();
      if !ok {
        return;
      }
      ok, repeat := ReadRepetitionCount();
      if !ok {
        return;
      }
      var i := 0;
      while i < repeat
        invariant i <= repeat && InChunk() && Rest() == c && r == c.Repeat(number, repeat - i, Cur())
      {
        ok := ApplyNumber(number);
        if !ok {
          return;
        }
        i := i + 1;
      }
      ok := true;
    }

    /** Either of the loops in zbm_read_single_bitmap(), with zbm_read_single_bit(). */
    method ReadBits(addr: nat, offset: nat, n: nat, ghost base: nat, ghost k: nat)
      returns (ok: bool, x: nat, addr2: nat, offset2: nat)
      requires srcEnd <= |src| && base <= addr == base + k / 8 && offset == k % 8 && n <= 8
      ensures ok <==> n == 0 || base + (k + n - 1) / 8 < srcEnd
      ensures ok ==> x == BitField(src, base, k, n) && addr2 == base + (k + n) / 8 && offset2 == (k + n) % 8
    {
      hide Bit, Power;
      x, addr2, offset2 := 0, addr, offset;
      var i := 0;
      while i < n
        invariant i <= n && addr2 == base + (k + i) / 8 && offset2 == (k + i) % 8
        invariant (i == 0 || base + (k + i - 1) / 8 < srcEnd) && x == BitField(src, base, k, i)
      {
        if addr2 >= srcEnd {
          return false, x, addr2, offset2;
        }
        if Bit(src[addr2], offset2) {
          x := x + Power(i);
        }
        offset2 := offset2 + 1;
        if offset2 == 8 {
          offset2 := 0;
          addr2 := addr2 + 1;
        }
        i := i + 1;
      }
      ok := true;
    }

    /** zbm_read_bitmaps() */
    method ReadBitmaps() returns (ok: bool)
      requires srcEnd <= |src| && len <= srcEnd
      modifies this`bitmaps
      ensures ok <==> len >= 17 && BmapsOk(BmapsAt(src, srcEnd - 17, 12))
      ensures ok ==> bitmaps == BmapsAt(src, srcEnd - 17, 12)
    {
      hide Bit, Power, BitField;
      if len < 17 {
        return false;
      }
      var base := srcEnd - 17;
      var addr, offset, i := base, 0, 0;
      bitmaps := [];
      while i < 12
        invariant i <= 12 && addr == base + 10 * i / 8 && offset == 10 * i % 8
        invariant bitmaps == BmapsAt(src, base, i) && BmapsOk(bitmaps)
      {
        var bits, count;
        ok, bits, addr, offset := ReadBits(addr, offset, 8, base, 10 * i);
        ok, count, addr, offset := ReadBits(addr, offset, 2, base, 10 * i + 8);
        assert BmapAt(src, base, i) == Bmap(bits, count);
        bitmaps := bitmaps + [Bmap(bits, count)];
        if count > 2 {
          BadBmap(src, base, i);
          return false;
        }
        i := i + 1;
      }
      ok := true;
    }

    /** Where the decoder is between chunks. */
    ghost predicate Between()
      reads this
    {
      at + srcLeft == |src| && pos == prewritten && pos + destLeft == dest.Length
    }

    /** The loop over the bitmaps in zbm_handle_compressed_chunk(). */
    method DecompressBitmaps() returns (ok: bool)
      requires InChunk()
      modifies this`pos, this`destLeft, this`written, this`period, this`data, this`meta1, this`meta2, this`nyblAddr,
        this`nibble, dest
      ensures InChunk()
      ensures var r := old(Rest().Bitmaps(Cur())); if ok then r == Done(Cur()) else r.Failed?
    {
      hide Bit, Chunk.SingleBitmap;
      ghost var c, r := Rest(), Rest().Bitmaps(Cur());
      while written < decmpLen
        invariant InChunk() && Rest() == c && r == c.Bitmaps(Cur())
        decreases decmpLen - written
      {
        ok := DecompressSingleBitmap();
        if !ok {
          return;
        }
      }
      ok := true;
    }

    /** The start of zbm_handle_compressed_chunk(): the metadata areas and the bitmaps. */
    method ReadMetadata() returns (ok: bool)
      requires Between() && len <= srcLeft && srcEnd == at + len && decmpLen <= destLeft
      modifies this`written, this`period, this`data, this`meta1, this`meta2, this`nyblAddr, this`nibble, this`bitmaps
      ensures ok <==> len >= 17 && OffsetsOk(src, at, len) && BmapsOk(BmapsAt(src, srcEnd - 17, 12))
      ensures ok ==> InChunk() && bitmaps == BmapsAt(src, srcEnd - 17, 12)
      ensures ok ==>
        Cur() ==
          Cursor(dest[..pos], 8, at + 15, at + U24(src, at + 6), at + U24(src, at + 9), 2 * (at + U24(src, at + 12)))
    {
      hide U24, BmapsAt;
      written := 0;
      period := 8;
      if len < 15 {
        return false;
      }
      data := at + 15;
      var off1, off2, off3 := U24(src, at + 6), U24(src, at + 9), U24(src, at + 12);
      if off1 >= len || off2 >= len || off3 >= len {
        return false;
      }
      meta1, meta2, nyblAddr, nibble := at + off1, at + off2, at + off3, 0;
      ok := ReadBitmaps();
    }

    /** zbm_handle_compressed_chunk() */
    method HandleCompressedChunk() returns (ok: bool)
      requires Between() && len <= srcLeft && srcEnd == at + len && decmpLen <= destLeft
      modifies this`pos, this`destLeft, this`written, this`period, this`data, this`meta1, this`meta2, this`nyblAddr,
        this`nibble,
               this`bitmaps, dest
      ensures pos + destLeft == dest.Length
      ensures Compressed(src, at, len, decmpLen, old(dest[..pos])) == if ok then Good(dest[..pos], len, decmpLen)
        else Bad(Invalid)
    {
      hide U24, BmapsAt, BmapsOk, Chunk.Bitmaps, Compressed, OffsetsOk, Chunk.Valid;
      CompressedCase(src, at, len, decmpLen, dest[..pos]);
      ok := ReadMetadata();
      if ok {
        ok := DecompressBitmaps();
      }
    }

    /** zbm_handle_uncompressed_chunk() */
    method HandleUncompressedChunk()
      requires Between() && len <= srcLeft && decmpLen <= destLeft && len == decmpLen + 6
      modifies this`pos, this`destLeft, this`written, this`data, this`meta1, this`meta2, this`nyblAddr, this`nibble,
        dest
      ensures pos + destLeft == dest.Length && dest[..pos] == old(dest[..pos]) + src[at + 6..at + len]
    {
      meta1, meta2, nyblAddr, nibble := 0, 0, 0, 0;
      data := at + 6;
      ghost var out := dest[..pos];
      var i := 0;
      while i < decmpLen
        invariant i <= decmpLen && pos == old(pos) && decmpLen <= destLeft && pos + destLeft == dest.Length &&
          data == at + 6
        invariant dest[..pos + i] == out + src[data..data + i]
      {
        dest[pos + i] := src[data + i];
        assert src[data..data + i] + [src[data + i]] == src[data..data + i + 1];
        i := i + 1;
      }
      pos, destLeft, written := pos + decmpLen, destLeft - decmpLen, decmpLen;
    }

    /** zbm_handle_chunk(), for a destination that is not NULL. */
    method HandleChunk() returns (status: Status)
      requires Between()
      modifies this, dest
      ensures at == old(at) && srcLeft == old(srcLeft) && prewritten == old(prewritten)
      ensures var r := OneChunk(src, at, old(dest[..pos]), dest.Length);
        if status == Ok then pos + destLeft == dest.Length && r == Good(dest[..pos], len, decmpLen)
        else r == Bad(status)
    {
      hide U24, Compressed;
      if srcLeft < 6 {
        return Invalid;
      }
      len := U24(src, at);
      if len > srcLeft {
        return Invalid;
      }
      srcEnd := at + len;
      decmpLen := U24(src, at + 3);
      if decmpLen > MAX_DECMP_CHUNK_SIZE {
        return Invalid;
      }
      if decmpLen > destLeft {
        return OutOfRange;
      }
      if len == decmpLen + 6 {
        HandleUncompressedChunk();
        return Ok;
      }
      var ok := HandleCompressedChunk();
      status := if ok then Ok else Invalid;
    }

    constructor (dest: array<byte>, src: seq<byte>)
      ensures this.dest == dest && this.src == src && at == 0 && srcLeft == |src|
      ensures pos == 0 && destLeft == dest.Length && prewritten == 0
    {
      this.dest, this.src := dest, src;
      at, srcLeft, pos, destLeft, prewritten := 0, |src|, 0, dest.Length, 0;
      written, period, srcEnd, len, decmpLen := 0, 0, 0, 0, 0;
      data, meta1, meta2, nyblAddr, nibble, bitmaps := 0, 0, 0, 0, 0, [];
    }

    /** zbm_decompress(), for a destination that is not NULL: it always ends, and the output
        is the meaning of the input. */
    method Decompress() returns (status: Status, outLen: nat)
      requires at == 0 && srcLeft == |src| && pos == 0 && destLeft == dest.Length && prewritten == 0
      modifies this, dest
      ensures Decode(src, dest.Length) == if status == Ok && outLen <= dest.Length then Output(dest[..outLen])
        else Error(status)
      ensures status == Ok ==> outLen <= dest.Length
    {
      hide OneChunk;
      outLen := 0;
      if srcLeft < 4 || src[..4] != MAGIC {
        return Invalid, outLen;
      }
      at, srcLeft := at + 4, srcLeft - 4;
      ghost var whole := Chunks(src, at, dest[..pos], dest.Length);
      assert dest[..pos] == [];
      status := Ok;
      var more := true;
      while more
        invariant status == Ok && Between() && prewritten <= dest.Length
        invariant whole == if more then Chunks(src, at, dest[..pos], dest.Length) else Output(dest[..pos])
        decreases srcLeft, more
      {
        status := HandleChunk();
        if status != Ok {
          return;
        }
        at, srcLeft, prewritten := at + len, srcLeft - len, prewritten + decmpLen;
        more := decmpLen != 0;
      }
      outLen := prewritten;
    }
  }

  lemma CompressedCase(src: seq<byte>, at: nat, len: nat, decmpLen: nat, out: seq<byte>)
    requires at + len <= |src|
    ensures len < 17 ==> Compressed(src, at, len, decmpLen, out) == Bad(Invalid)
    ensures len >= 15 && !OffsetsOk(src, at, len) ==>
      Compressed(src, at, len, decmpLen, out) == Bad(Invalid)
    ensures len >= 17 && !BmapsOk(BmapsAt(src, at + len - 17, 12)) ==>
      Compressed(src, at, len, decmpLen, out) == Bad(Invalid)
    ensures len >= 17 && BmapsOk(BmapsAt(src, at + len - 17, 12)) && OffsetsOk(src, at, len) ==>
      var c := Chunk(src, at + len, |out| + decmpLen, BmapsAt(src, at + len - 17, 12));
      var cur := Cursor(out, 8, at + 15, at + U24(src, at + 6), at + U24(src, at + 9), 2 * (at + U24(src, at + 12)));
      c.Valid() && Compressed(src, at, len, decmpLen, out) == FromResult(c.Bitmaps(cur), len, decmpLen)
  {
    hide U24, BmapsAt, Chunk.Bitmaps;
  }

  predicate OffsetsOk(src: seq<byte>, at: nat, len: nat)
    requires 15 <= len && at + len <= |src|
  {
    U24(src, at + 6) < len && U24(src, at + 9) < len && U24(src, at + 12) < len
  }

  function FromResult(r: Result, len: nat, decmpLen: nat): Outcome {
    if r.Done? then Good(r.cur.out, len, decmpLen) else Bad(Invalid)
  }

  lemma {:induction false} BmapsIndex(src: seq<byte>, base: nat, n: nat, i: nat)
    requires i < n <= 12 && base + 17 <= |src|
    ensures BmapsAt(src, base, n)[i] == BmapAt(src, base, i)
  {
    hide BmapAt;
    if i < n - 1 { BmapsIndex(src, base, n - 1, i); }
  }

  lemma BadBmap(src: seq<byte>, base: nat, i: nat)
    requires i < 12 && base + 17 <= |src| && BmapAt(src, base, i).periodBytes > 2
    ensures !BmapsOk(BmapsAt(src, base, 12))
  {
    hide BmapAt;
    BmapsIndex(src, base, 12, i);
  }

  lemma CountCase(c: Chunk, n: nat, total: nat)
    requires c.Valid()
    ensures n / 2 >= c.end ==> !c.CountFrom(n, total).0
    ensures n / 2 < c.end ==>
      var x := c.Nibble(n);
      c.CountFrom(n, total) == if total + x >= 65536 then (false, n, 0) else if x == 15
        then c.CountFrom(n + 1, total + x) else (true, n + 1, total + x)
  {
  }
}
