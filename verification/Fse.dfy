/** Decoder tables for finite state entropy (lzfse/lzfse_fse.c). A table has an entry per
    state; each symbol gets as many of them as its frequency. From an entry, the decoder
    moves on to the state given by its delta plus the next k bits of the input. */
module Fse {
  import opened Arith

  datatype Entry = Entry(k: int, symbol: int, delta: int)

  datatype ValueEntry = ValueEntry(totalBits: int, valueBits: int, delta: int, vbase: int)

  // Powers of two

  function Pow2(n: nat): (p: nat)
    ensures p > 0
  {
    if n == 0 then 1 else 2 * Pow2(n - 1)
  }

  lemma {:induction false} Pow2Add(m: nat, n: nat)
    ensures Pow2(m + n) == Pow2(m) * Pow2(n)
  {
    if m > 0 { Pow2Add(m - 1, n); }
  }

  lemma {:induction false} Pow2Grows(m: nat, n: nat)
    requires m <= n
    ensures Pow2(m) <= Pow2(n)
  {
    if m < n { Pow2Grows(m, n - 1); }
  }

  lemma Pow2Step(n: nat)
    ensures Pow2(n + 1) == 2 * Pow2(n)
  {
  }

  lemma Distribute(x: int, y: int, z: int)
    ensures (x + y) * z == x * z + y * z && (x - y) * z == x * z - y * z
  {
  }

  lemma MulTwo(x: int, y: int)
    ensures x * (2 * y) == 2 * (x * y) && 2 * x * y == 2 * (x * y)
  {
  }

  /** The position of the highest bit; __builtin_clz() is 31 minus this. */
  function Log2(x: nat): (l: nat)
    requires x > 0
    ensures Pow2(l) <= x < Pow2(l + 1)
  {
    if x == 1 then 0 else 1 + Log2(x / 2)
  }

  function Clz(x: nat): int
    requires x > 0
  {
    31 - Log2(x)
  }

  lemma Log2Pow2(a: nat)
    ensures Log2(Pow2(a)) == a
  {
    hide Log2, Pow2;
    var l := Log2(Pow2(a));
    Pow2Step(a);
    if l < a { Pow2Grows(l + 1, a); } else if l > a { Pow2Grows(a + 1, l); }
  }

  lemma Log2Most(f: nat, a: nat)
    requires 0 < f <= Pow2(a)
    ensures Log2(f) <= a
  {
    if Log2(f) > a { Pow2Grows(a + 1, Log2(f)); }
  }

  /** Conversion to int16_t. */
  function Int16(x: int): (r: int)
    ensures r == x <==> -32768 <= x <= 32767
    ensures -32768 <= r <= 32767 && (x - r) % 65536 == 0
  {
    (x + 32768) % 65536 - 32768
  }

  // The entries of a symbol

  /** The shift of a symbol of frequency f in a table of n states. */
  function Shift(n: nat, f: nat): int
    requires n > 0 && f > 0
  {
    Clz(f) - Clz(n)
  }

  /** How many of the symbol's states use that many bits; the others take one less. */
  function Longer(n: nat, f: nat): int
    requires n > 0 && f > 0 && Shift(n, f) >= 0
  {
    2 * n / Pow2(Shift(n, f)) - f
  }

  function Bits(n: nat, f: nat, j: nat): int
    requires n > 0 && f > 0 && Shift(n, f) >= 0
  {
    if j < Longer(n, f) then Shift(n, f) else Shift(n, f) - 1
  }

  function Delta(n: nat, f: nat, j: nat): int
    requires n > 0 && f > 0 && Shift(n, f) >= 0
    requires j >= Longer(n, f) ==> Shift(n, f) > 0
  {
    if j < Longer(n, f) then (f + j) * Pow2(Shift(n, f)) - n else (j - Longer(n, f)) * Pow2(Shift(n, f) - 1)
  }

  /** N <= (f << k) < 2N, and the second kind of entry only exists if there is a bit to
      drop. */
  lemma ShiftBounds(a: nat, f: nat)
    requires 0 < f <= Pow2(a)
    ensures var k := Shift(Pow2(a), f); 0 <= k <= a && Pow2(a) <= f * Pow2(k) < 2 * Pow2(a)
    ensures var k := Shift(Pow2(a), f);
      Longer(Pow2(a), f) == Pow2(a + 1 - k) - f && Pow2(a + 1 - k) * Pow2(k) == 2 * Pow2(a)
    ensures 0 < Longer(Pow2(a), f) <= f && (Shift(Pow2(a), f) == 0 ==> Longer(Pow2(a), f) == f)
  {
    var n, l := Pow2(a), Log2(f);
    Log2Pow2(a);
    Log2Most(f, a);
    var k := a - l;
    Pow2Add(l, k);
    Pow2Add(l + 1, k);
    MulLess(Pow2(l), f, Pow2(k));
    MulLess(f + 1, Pow2(l + 1), Pow2(k));
    assert (f + 1) * Pow2(k) == f * Pow2(k) + Pow2(k);
    DivExact(Pow2(l + 1), Pow2(k));
  }

  lemma MulLess(x: nat, y: nat, z: nat)
    requires x <= y
    ensures x * z <= y * z
  {
    assert y * z == x * z + (y - x) * z;
  }

  lemma DivExact(x: nat, y: nat)
    requires y > 0
    ensures x * y / y == x
  {
    DivOf(x, 0, y);
  }

  /** The states that an entry may lead to. */
  predicate Reaches(n: nat, f: nat, j: nat, s: int)
    requires n > 0 && f > 0 && Shift(n, f) >= 0 && (j >= Longer(n, f) ==> Shift(n, f) > 0)
  {
    Delta(n, f, j) <= s < Delta(n, f, j) + Pow2(Bits(n, f, j))
  }

  /** The entry of the symbol that leads to a state. */
  function Source(n: nat, f: nat, s: nat): int
    requires n > 0 && f > 0 && Shift(n, f) >= 0 && (Longer(n, f) < f ==> Shift(n, f) > 0)
  {
    var p := Pow2(Shift(n, f));
    var d := f * p - n;
    if s >= d then (s - d) / p else if Shift(n, f) == 0 then 0 else Longer(n, f) + s / Pow2(Shift(n, f) - 1)
  }

  lemma InBlock(i: nat, x: int, p: nat)
    requires p > 0
    ensures i * p <= x < i * p + p <==> x >= 0 && x / p == i
  {
    if i * p <= x < i * p + p { DivOf(i, x - i * p, p); }
  }

  lemma BlockOf(x: nat, m: nat, p: nat)
    requires p > 0 && x < m * p
    ensures x / p < m
  {
    var q := x / p;
    assert q * p <= x;
    if q >= m { MulLess(m, q, p); }
  }

  /** The entries of a symbol tile the states: each state in range is reached from exactly
      one of them, and no other state is. */
  lemma Tiles(a: nat, f: nat, s: int)
    requires 0 < f <= Pow2(a)
    ensures Shift(Pow2(a), f) >= 0 && (Longer(Pow2(a), f) < f ==> Shift(Pow2(a), f) > 0)
    ensures 0 <= s < Pow2(a) ==> 0 <= Source(Pow2(a), f, s) < f
    ensures forall j :: 0 <= j < f ==> (Reaches(Pow2(a), f, j, s) <==> 0 <= s < Pow2(a) && j == Source(Pow2(a), f, s))
  {
    ShiftBounds(a, f);
    var n, k, j0 := Pow2(a), Shift(Pow2(a), f), Longer(Pow2(a), f);
    if 0 <= s < n { SourceInRange(a, f, s); }
    forall j | 0 <= j < f
      ensures Reaches(n, f, j, s) <==> 0 <= s < n && j == Source(n, f, s)
    {
      if j < j0 { TilesLong(a, f, s, j); } else { TilesShort(a, f, s, j); }
    }
  }

  /** What the longer entries cover, and the shorter ones. */
  lemma Halves(a: nat, f: nat)
    requires 0 < f <= Pow2(a)
    ensures Shift(Pow2(a), f) >= 0
    ensures var n, k, j0 := Pow2(a), Shift(Pow2(a), f), Longer(Pow2(a), f);
      && (k == 0 ==> j0 == f) && 0 < j0 <= f && 0 <= f * Pow2(k) - n < n && j0 * Pow2(k) == n - (f * Pow2(k) - n)
      && (k > 0 ==> (f - j0) * Pow2(k - 1) == f * Pow2(k) - n)
  {
    hide Pow2, Shift, Longer;
    ShiftBounds(a, f);
    var k := Shift(Pow2(a), f);
    var p, q := Pow2(k), Pow2(a + 1 - k);
    Distribute(q, f, p);
    if k > 0 {
      var h := Pow2(k - 1);
      Pow2Step(k - 1);
      Distribute(2 * f, q, h);
      MulTwo(q, h);
      MulTwo(f, h);
      assert f - (q - f) == 2 * f - q;
    }
  }

  lemma SourceInRange(a: nat, f: nat, s: nat)
    requires 0 < f <= Pow2(a) && s < Pow2(a)
    ensures Shift(Pow2(a), f) >= 0 && (Longer(Pow2(a), f) < f ==> Shift(Pow2(a), f) > 0)
    ensures var d := f * Pow2(Shift(Pow2(a), f)) - Pow2(a);
      if s >= d then 0 <= Source(Pow2(a), f, s) < Longer(Pow2(a), f)
      else Longer(Pow2(a), f) <= Source(Pow2(a), f, s) < f
  {
    hide Pow2, Shift, Longer, Source;
    Halves(a, f);
    var n, k, j0 := Pow2(a), Shift(Pow2(a), f), Longer(Pow2(a), f);
    var d := f * Pow2(k) - n;
    if s >= d {
      SourceLong(a, f, s);
      BlockOf(s - d, j0, Pow2(k));
    } else {
      if k == 0 { NoShift(a, f); }
      SourceShort(a, f, s);
      BlockOf(s, f - j0, Pow2(k - 1));
    }
  }

  lemma SourceShort(a: nat, f: nat, s: nat)
    requires 0 < f <= Pow2(a) && Shift(Pow2(a), f) > 0
    ensures s < f * Pow2(Shift(Pow2(a), f)) - Pow2(a) ==>
      Source(Pow2(a), f, s) == Longer(Pow2(a), f) + s / Pow2(Shift(Pow2(a), f) - 1)
  {
    hide Pow2, Shift, Longer;
  }

  lemma NoShift(a: nat, f: nat)
    requires 0 < f <= Pow2(a) && Shift(Pow2(a), f) == 0
    ensures f == Pow2(a) && Pow2(0) == 1
  {
    ShiftBounds(a, f);
  }

  lemma TilesLong(a: nat, f: nat, s: int, j: nat)
    requires 0 < f <= Pow2(a) && Shift(Pow2(a), f) >= 0 && (Longer(Pow2(a), f) < f ==> Shift(Pow2(a), f) > 0)
    requires j < Longer(Pow2(a), f)
    ensures Reaches(Pow2(a), f, j, s) <==> 0 <= s < Pow2(a) && j == Source(Pow2(a), f, s)
  {
    hide Pow2, Shift, Longer, Source;
    Halves(a, f);
    var n, k, j0 := Pow2(a), Shift(Pow2(a), f), Longer(Pow2(a), f);
    var p := Pow2(k);
    var d := f * p - n;
    Distribute(f, j, p);
    InBlock(j, s - d, p);
    MulLess(j + 1, j0, p);
    Distribute(j, 1, p);
    if 0 <= s < n {
      SourceInRange(a, f, s);
      SourceLong(a, f, s);
    }
  }

  lemma SourceLong(a: nat, f: nat, s: nat)
    requires 0 < f <= Pow2(a) && Shift(Pow2(a), f) >= 0 && (Longer(Pow2(a), f) < f ==> Shift(Pow2(a), f) > 0)
    ensures var p := Pow2(Shift(Pow2(a), f)); s >= f * p - Pow2(a) ==>
      Source(Pow2(a), f, s) == (s - (f * p - Pow2(a))) / p
  {
    hide Pow2, Shift, Longer;
  }

  lemma TilesShort(a: nat, f: nat, s: int, j: nat)
    requires 0 < f <= Pow2(a) && Shift(Pow2(a), f) >= 0 && (Longer(Pow2(a), f) < f ==> Shift(Pow2(a), f) > 0)
    requires Longer(Pow2(a), f) <= j < f
    ensures Reaches(Pow2(a), f, j, s) <==> 0 <= s < Pow2(a) && j == Source(Pow2(a), f, s)
  {
    hide Pow2, Shift, Longer, Source;
    Halves(a, f);
    var n, k, j0 := Pow2(a), Shift(Pow2(a), f), Longer(Pow2(a), f);
    var h := Pow2(k - 1);
    InBlock(j - j0, s, h);
    MulLess(j - j0 + 1, f - j0, h);
    Distribute(j - j0, 1, h);
    if 0 <= s < n {
      SourceInRange(a, f, s);
      SourceShort(a, f, s);
    }
  }

  /** Storing the deltas as int16_t is exact for all the entries of a symbol if and only if
      the largest of them fits. */
  lemma DeltasFit(a: nat, f: nat)
    requires 0 < f <= Pow2(a)
    ensures Shift(Pow2(a), f) >= 0 && (Longer(Pow2(a), f) < f ==> Shift(Pow2(a), f) > 0)
    ensures (forall j :: 0 <= j < f ==> Int16(Delta(Pow2(a), f, j)) == Delta(Pow2(a), f, j)) <==>
            Pow2(a) - Pow2(Shift(Pow2(a), f)) <= 32767
  {
    hide Pow2, Shift, Longer, Delta, Int16;
    Halves(a, f);
    var n, j0 := Pow2(a), Longer(Pow2(a), f);
    LargestDelta(a, f);
    assert Int16(Delta(n, f, j0 - 1)) == Delta(n, f, j0 - 1) <==> n - Pow2(Shift(n, f)) <= 32767 by {
      DeltaMost(a, f, j0 - 1);
    }
    if n - Pow2(Shift(n, f)) <= 32767 {
      forall j | 0 <= j < f
        ensures Int16(Delta(n, f, j)) == Delta(n, f, j)
      {
        DeltaMost(a, f, j);
      }
    }
  }

  /** With 65536 states, the first of three that a symbol has goes to state 32768, but its
      entry says -32768. */
  lemma DeltaWraps()
    ensures Shift(Pow2(16), 3) == 15 && Longer(Pow2(16), 3) == 1
    ensures Delta(Pow2(16), 3, 0) == 32768 && Int16(Delta(Pow2(16), 3, 0)) == -32768
  {
    hide Shift, Longer;
    assert Pow2(5) == 32 && Pow2(10) == 1024 && Pow2(14) == 16384 && Pow2(16) == 65536;
    ShiftBounds(16, 3);
    var k := Shift(Pow2(16), 3);
    if k < 15 { Pow2Grows(k, 14); }
    if k > 15 { Pow2Grows(16, k); }
    assert k == 15 && Pow2(15) == 32768 && Pow2(2) == 4;
  }

  lemma LargestDelta(a: nat, f: nat)
    requires 0 < f <= Pow2(a) && Shift(Pow2(a), f) >= 0 && 0 < Longer(Pow2(a), f) <= f
    ensures Delta(Pow2(a), f, Longer(Pow2(a), f) - 1) == Pow2(a) - Pow2(Shift(Pow2(a), f))
  {
    hide Pow2, Shift, Longer;
    Halves(a, f);
    var j0, p := Longer(Pow2(a), f), Pow2(Shift(Pow2(a), f));
    Distribute(f, j0 - 1, p);
    Distribute(j0, 1, p);
  }

  lemma DeltaMost(a: nat, f: nat, j: nat)
    requires 0 < f <= Pow2(a) && j < f && Shift(Pow2(a), f) >= 0 && (Longer(Pow2(a), f) < f ==> Shift(Pow2(a), f) > 0)
    ensures 0 <= Delta(Pow2(a), f, j) <= Pow2(a) - Pow2(Shift(Pow2(a), f))
  {
    if j < Longer(Pow2(a), f) { DeltaLong(a, f, j); } else { DeltaShort(a, f, j); }
  }

  lemma DeltaLong(a: nat, f: nat, j: nat)
    requires 0 < f <= Pow2(a) && j < f && Shift(Pow2(a), f) >= 0 && j < Longer(Pow2(a), f)
    ensures 0 <= Delta(Pow2(a), f, j) <= Pow2(a) - Pow2(Shift(Pow2(a), f))
  {
    hide Pow2, Shift, Longer;
    Halves(a, f);
    var j0, p := Longer(Pow2(a), f), Pow2(Shift(Pow2(a), f));
    MulLess(j + 1, j0, p);
    Distribute(f, j, p);
    Distribute(j, 1, p);
    MulLess(0, j, p);
  }

  lemma DeltaShort(a: nat, f: nat, j: nat)
    requires 0 < f <= Pow2(a) && j < f && Shift(Pow2(a), f) > 0 && j >= Longer(Pow2(a), f)
    ensures 0 <= Delta(Pow2(a), f, j) <= Pow2(a) - Pow2(Shift(Pow2(a), f))
  {
    hide Pow2, Shift, Longer;
    Halves(a, f);
    var k, j0 := Shift(Pow2(a), f), Longer(Pow2(a), f);
    var p, h := Pow2(k), Pow2(k - 1);
    MulLess(0, j - j0, h);
    MulLess(j - j0, f - j0, h);
    MulLess(1, j0, p);
  }

  // The tables

  function Sum(freq: seq<nat>, n: nat): nat
    requires n <= |freq|
  {
    if n == 0 then 0 else Sum(freq, n - 1) + freq[n - 1]
  }

  lemma {:induction false} SumGrows(freq: seq<nat>, m: nat, n: nat)
    requires m <= n <= |freq|
    ensures Sum(freq, m) <= Sum(freq, n)
  {
    if m < n { SumGrows(freq, m, n - 1); }
  }

  predicate Shifted(n: nat, f: nat) {
    n > 0 && f > 0 && Shift(n, f) >= 0 && (Longer(n, f) < f ==> Shift(n, f) > 0)
  }

  function EntryOf(n: nat, symbol: nat, f: nat, j: nat): Entry
    requires Shifted(n, f) && j < f
  {
    Entry(Bits(n, f, j), symbol % 256, Int16(Delta(n, f, j)))
  }

  function ValueOf(n: nat, vbits: nat, vbase: int, f: nat, j: nat): ValueEntry
    requires Shifted(n, f) && j < f
  {
    ValueEntry((Bits(n, f, j) + vbits) % 256, vbits, Int16(Delta(n, f, j)), vbase)
  }

  /** The first m entries of a symbol. */
  function SymbolEntries(n: nat, symbol: nat, f: nat, m: nat): (r: seq<Entry>)
    requires Shifted(n, f) && m <= f
    ensures |r| == m
  {
    if m == 0 then []
    else SymbolEntries(n, symbol, f, m - 1) + [EntryOf(n, symbol, f, m - 1)]
  }

  function ValueEntries(n: nat, vbits: nat, vbase: int, f: nat, m: nat): (r: seq<ValueEntry>)
    requires Shifted(n, f) && m <= f
    ensures |r| == m
  {
    if m == 0 then []
    else ValueEntries(n, vbits, vbase, f, m - 1) + [ValueOf(n, vbits, vbase, f, m - 1)]
  }

  predicate Fits(n: nat, freq: seq<nat>, i: nat)
    requires i <= |freq|
  {
    forall k :: 0 <= k < i && freq[k] > 0 ==> Shifted(n, freq[k])
  }

  function Table(n: nat, freq: seq<nat>, i: nat): (r: seq<Entry>)
    requires i <= |freq| && Fits(n, freq, i)
    ensures |r| == Sum(freq, i)
  {
    if i == 0 then []
    else Table(n, freq, i - 1) + if freq[i - 1] == 0 then [] else SymbolEntries(n, i - 1, freq[i - 1], freq[i - 1])
  }

  function ValueTable(n: nat, freq: seq<nat>, vbits: seq<nat>, vbase: seq<int>, i: nat): (r: seq<ValueEntry>)
    requires i <= |freq| == |vbits| == |vbase| && Fits(n, freq, i)
    ensures |r| == Sum(freq, i)
  {
    if i == 0 then []
    else ValueTable(n, freq, vbits, vbase, i - 1) +
         if freq[i - 1] == 0 then [] else ValueEntries(n, vbits[i - 1], vbase[i - 1], freq[i - 1], freq[i - 1])
  }

  lemma {:induction false} SymbolAt(n: nat, symbol: nat, vbits: nat, vbase: int, f: nat, m: nat, j: nat)
    requires Shifted(n, f) && j < m <= f
    ensures SymbolEntries(n, symbol, f, m)[j] == EntryOf(n, symbol, f, j)
    ensures ValueEntries(n, vbits, vbase, f, m)[j] == ValueOf(n, vbits, vbase, f, j)
  {
    if j < m - 1 { SymbolAt(n, symbol, vbits, vbase, f, m - 1, j); }
  }

  /** State Sum(i) + j of both tables is entry j of symbol i: they agree on the delta, and
      on the bits to read but for those of the value. */
  lemma {:induction false} TablesAgree(n: nat, freq: seq<nat>, vbits: seq<nat>, vbase: seq<int>, m: nat, i: nat, j: nat)
    requires i < m <= |freq| == |vbits| == |vbase| && Fits(n, freq, m) && j < freq[i]
    ensures Sum(freq, i) + j < Sum(freq, m) && Shifted(n, freq[i])
    ensures Table(n, freq, m)[Sum(freq, i) + j] == EntryOf(n, i, freq[i], j)
    ensures ValueTable(n, freq, vbits, vbase, m)[Sum(freq, i) + j] == ValueOf(n, vbits[i], vbase[i], freq[i], j)
    decreases m
  {
    hide Bits, Delta, Int16, Shifted, EntryOf, ValueOf, SymbolEntries, ValueEntries;
    SumGrows(freq, i + 1, m);
    if i < m - 1 {
      TablesAgree(n, freq, vbits, vbase, m - 1, i, j);
    } else {
      SymbolAt(n, i, vbits[i], vbase[i], freq[i], freq[i], j);
    }
  }

  /** Entry j of a symbol undoes the shift of an encoder: state s, plus the number of states,
      is shifted to the right until it is f + j, and what falls off are the bits to read. */
  ghost predicate IsEntry(n: nat, e: Entry, symbol: nat, f: nat, j: nat) {
    && e.symbol == symbol % 256 && e.k >= 0
    && n <= (f + j) * Pow2(e.k) && (f + j + 1) * Pow2(e.k) <= 2 * n
    && e.delta == Int16((f + j) * Pow2(e.k) - n)
  }

  ghost predicate EntryAt(n: nat, freq: seq<nat>, t: seq<Entry>, i: nat, j: nat)
    requires i < |freq|
  {
    Sum(freq, i) + j < |t| && IsEntry(n, t[Sum(freq, i) + j], i, freq[i], j)
  }

  ghost predicate IsTable(n: nat, freq: seq<nat>, t: seq<Entry>) {
    && |t| == Sum(freq, |freq|)
    && forall i, j :: 0 <= i < |freq| && 0 <= j < freq[i] ==> EntryAt(n, freq, t, i, j)
  }

  lemma ShiftsBack(a: nat, f: nat, j: nat)
    requires 0 < f <= Pow2(a) && j < f
    ensures Shifted(Pow2(a), f) && Bits(Pow2(a), f, j) >= 0
    ensures var n, p := Pow2(a), Pow2(Bits(Pow2(a), f, j));
      n <= (f + j) * p && (f + j + 1) * p <= 2 * n && Delta(n, f, j) == (f + j) * p - n
  {
    hide Pow2, Shift, Longer;
    Halves(a, f);
    var n, k, j0 := Pow2(a), Shift(Pow2(a), f), Longer(Pow2(a), f);
    if j < j0 {
      var p := Pow2(k);
      MulLess(f, f + j, p);
      MulLess(f + j + 1, f + j0, p);
      Distribute(f, j0, p);
    } else {
      var h := Pow2(k - 1);
      Pow2Step(k - 1);
      MulTwo(f, h);
      MulTwo(j0, h);
      Distribute(j, j0, h);
      Distribute(f, j, h);
      Distribute(f, j0, h);
      MulLess(j0 + f, f + j, h);
      MulLess(f + j + 1, 2 * f, h);
      assert 2 * f * h == f * Pow2(k);
    }
  }

  lemma EntryIs(a: nat, symbol: nat, f: nat, j: nat)
    requires 0 < f <= Pow2(a) && j < f
    ensures Shifted(Pow2(a), f) && IsEntry(Pow2(a), EntryOf(Pow2(a), symbol, f, j), symbol, f, j)
  {
    hide Pow2, Shift, Longer, Bits, Delta, Int16, Shifted;
    ShiftsBack(a, f, j);
  }

  /** The finished table, without its definition. */
  lemma TableIs(a: nat, freq: seq<nat>)
    requires Sum(freq, |freq|) <= Pow2(a)
    ensures Fits(Pow2(a), freq, |freq|) && IsTable(Pow2(a), freq, Table(Pow2(a), freq, |freq|))
  {
    hide Pow2, Table, ValueTable, Shifted, EntryOf, ValueOf, IsEntry, Sum, Fits;
    ShiftedAll(a, freq, |freq|);
    var none := seq(|freq|, _ => 0);
    forall i, j | 0 <= i < |freq| && 0 <= j < freq[i]
      ensures EntryAt(Pow2(a), freq, Table(Pow2(a), freq, |freq|), i, j)
    {
      OneFits(freq, i);
      TablesAgree(Pow2(a), freq, none, none, |freq|, i, j);
      EntryIs(a, i, freq[i], j);
    }
  }

  /** The entry of the other table for the same state: it reads the bits of a value too. */
  predicate IsValue(e: Entry, v: ValueEntry, vbits: nat, vbase: int) {
    v.delta == e.delta && v.totalBits == (e.k + vbits) % 256 && v.valueBits == vbits && v.vbase == vbase
  }

  predicate ValueAt(freq: seq<nat>, table: seq<Entry>, t: seq<ValueEntry>, i: nat, j: nat, vbits: nat, vbase: int)
    requires i < |freq|
  {
    var x := Sum(freq, i) + j;
    x < |t| && x < |table| && IsValue(table[x], t[x], vbits, vbase)
  }

  ghost predicate IsValueTable(freq: seq<nat>, vbits: seq<nat>, vbase: seq<int>, table: seq<Entry>, t: seq<ValueEntry>)
    requires |freq| == |vbits| == |vbase|
  {
    && |t| == |table|
    && forall i, j :: 0 <= i < |freq| && 0 <= j < freq[i] ==> ValueAt(freq, table, t, i, j, vbits[i], vbase[i])
  }

  lemma ValueTableIs(n: nat, freq: seq<nat>, vbits: seq<nat>, vbase: seq<int>)
    requires |freq| == |vbits| == |vbase| && Fits(n, freq, |freq|)
    ensures IsValueTable(freq, vbits, vbase, Table(n, freq, |freq|), ValueTable(n, freq, vbits, vbase, |freq|))
  {
    hide Shift, Longer, Table, ValueTable, Bits, Delta, Int16, Shifted;
    forall i, j | 0 <= i < |freq| && 0 <= j < freq[i]
      ensures ValueAt(freq, Table(n, freq, |freq|), ValueTable(n, freq, vbits, vbase, |freq|), i, j, vbits[i], vbase[i])
    {
      TablesAgree(n, freq, vbits, vbase, |freq|, i, j);
    }
  }

  lemma AllShifted(a: nat, f: nat)
    requires 0 < f <= Pow2(a)
    ensures Shifted(Pow2(a), f)
  {
    hide Pow2, Shift, Longer;
    ShiftBounds(a, f);
  }

  lemma ShiftedAll(a: nat, freq: seq<nat>, i: nat)
    requires i <= |freq| && Sum(freq, i) <= Pow2(a)
    ensures Fits(Pow2(a), freq, i)
  {
    hide Pow2, Shifted;
    forall k | 0 <= k < i && freq[k] > 0
      ensures Shifted(Pow2(a), freq[k])
    {
      SumGrows(freq, k + 1, i);
      AllShifted(a, freq[k]);
    }
  }

  lemma Nothing(n: nat, freq: seq<nat>)
    ensures Sum(freq, 0) == 0 && Fits(n, freq, 0) && Table(n, freq, 0) == []
  {
  }

  lemma TableNext(n: nat, freq: seq<nat>, i: nat)
    requires i < |freq|
    ensures Sum(freq, i + 1) == Sum(freq, i) + freq[i]
    ensures Fits(n, freq, i + 1) <==> Fits(n, freq, i) && (freq[i] > 0 ==> Shifted(n, freq[i]))
    ensures Fits(n, freq, i + 1) ==>
      Table(n, freq, i + 1) == Table(n, freq, i) + if freq[i] == 0 then [] else SymbolEntries(n, i, freq[i], freq[i])
  {
    hide Shifted, SymbolEntries;
  }

  /** fse_init_decoder_table() */
  method InitDecoderTable(nstates: nat, freq: seq<nat>, t: array<Entry>, ghost a: nat) returns (rc: int)
    requires nstates == Pow2(a) && t.Length >= nstates
    modifies t
    ensures rc == if Sum(freq, |freq|) <= nstates then 0 else -1
    ensures rc == 0 ==> Fits(nstates, freq, |freq|) && t[..Sum(freq, |freq|)] == Table(nstates, freq, |freq|)
    ensures rc == 0 ==> IsTable(nstates, freq, t[..Sum(freq, |freq|)])
    ensures forall x :: nstates <= x < t.Length ==> t[x] == old(t[x])
  {
    hide Pow2, Sum, Table, Fits, Shifted, SymbolEntries, IsTable;
    Nothing(nstates, freq);
    var pos, i := 0, 0;
    while i < |freq|
      invariant i <= |freq| && pos == Sum(freq, i) <= nstates && Fits(nstates, freq, i)
      invariant t[..pos] == Table(nstates, freq, i)
      invariant forall x :: nstates <= x < t.Length ==> t[x] == old(t[x])
    {
      var f := freq[i];
      SumGrows(freq, i + 1, |freq|);
      TableNext(nstates, freq, i);
      if f > 0 {
        if pos + f > nstates {
          return -1;
        }
        ShiftedAll(a, freq, i + 1);
        FillSymbol(nstates, i, f, t, pos);
        pos := pos + f;
      }
      i := i + 1;
    }
    rc := 0;
    TableIs(a, freq);
  }

  /** The inner loop of fse_init_decoder_table(). */
  method FillSymbol(nstates: nat, symbol: nat, f: nat, t: array<Entry>, pos: nat)
    requires Shifted(nstates, f) && pos + f <= t.Length
    modifies t
    ensures t[..pos + f] == old(t[..pos]) + SymbolEntries(nstates, symbol, f, f)
    ensures forall x :: pos + f <= x < t.Length ==> t[x] == old(t[x])
  {
    hide Int16, Shift, Pow2;
    var k := Clz(f) - Clz(nstates);
    assert k == Shift(nstates, f) by { ShiftIs(nstates, f); }
    var j0 := 2 * nstates / Pow2(k) - f;
    var j := 0;
    assert t[..pos + 0] == t[..pos];
    while j < f
      invariant j <= f && t[..pos + j] == old(t[..pos]) + SymbolEntries(nstates, symbol, f, j)
      invariant forall x :: pos + j <= x < t.Length ==> t[x] == old(t[x])
    {
      var e;
      if j < j0 {
        e := Entry(k, symbol % 256, Int16((f + j) * Pow2(k) - nstates));
      } else {
        e := Entry(k - 1, symbol % 256, Int16((j - j0) * Pow2(k - 1)));
      }
      assert e == EntryOf(nstates, symbol, f, j);
      t[pos + j] := e;
      j := j + 1;
    }
  }

  lemma ShiftIs(n: nat, f: nat)
    requires n > 0 && f > 0
    ensures Shift(n, f) == Clz(f) - Clz(n)
  {
  }

  lemma ValueTableNext(n: nat, freq: seq<nat>, vbits: seq<nat>, vbase: seq<int>, i: nat)
    requires i < |freq| == |vbits| == |vbase| && Fits(n, freq, |freq|)
    ensures Fits(n, freq, i) && Fits(n, freq, i + 1) && (freq[i] > 0 ==> Shifted(n, freq[i]))
    ensures Sum(freq, i + 1) == Sum(freq, i) + freq[i]
    ensures ValueTable(n, freq, vbits, vbase, i + 1) == ValueTable(n, freq, vbits, vbase, i) +
      if freq[i] == 0 then [] else ValueEntries(n, vbits[i], vbase[i], freq[i], freq[i])
  {
    hide Shifted, ValueEntries;
  }

  lemma NoValues(n: nat, freq: seq<nat>, vbits: seq<nat>, vbase: seq<int>)
    requires |freq| == |vbits| == |vbase| && Fits(n, freq, |freq|)
    ensures Sum(freq, 0) == 0 && Fits(n, freq, 0) && ValueTable(n, freq, vbits, vbase, 0) == []
  {
    hide Shifted;
  }

  /** fse_init_value_decoder_table(), for frequencies that are known to fit. */
  method InitValueDecoderTable(nstates: nat, freq: seq<nat>, vbits: seq<nat>, vbase: seq<int>, t: array<ValueEntry>,
                               ghost a: nat)
    requires nstates == Pow2(a) && Sum(freq, |freq|) <= nstates <= t.Length && |freq| == |vbits| == |vbase|
    modifies t
    ensures Fits(nstates, freq, |freq|) && t[..Sum(freq, |freq|)] == ValueTable(nstates, freq, vbits, vbase, |freq|)
    ensures IsValueTable(freq, vbits, vbase, Table(nstates, freq, |freq|), t[..Sum(freq, |freq|)])
    ensures forall x :: Sum(freq, |freq|) <= x < t.Length ==> t[x] == old(t[x])
  {
    hide Pow2, Sum, Table, ValueTable, Fits, Shifted, ValueEntries, IsValueTable;
    ShiftedAll(a, freq, |freq|);
    ValueTableIs(nstates, freq, vbits, vbase);
    NoValues(nstates, freq, vbits, vbase);
    var pos, i := 0, 0;
    while i < |freq|
      invariant i <= |freq| && pos == Sum(freq, i) <= t.Length && Fits(nstates, freq, i)
      invariant t[..pos] == ValueTable(nstates, freq, vbits, vbase, i)
      invariant forall x :: pos <= x < t.Length ==> t[x] == old(t[x])
    {
      var f := freq[i];
      SumGrows(freq, i + 1, |freq|);
      ValueTableNext(nstates, freq, vbits, vbase, i);
      if f > 0 {
        FillValues(nstates, vbits[i], vbase[i], f, t, pos);
        pos := pos + f;
      }
      i := i + 1;
    }
  }

  /** The inner loop of fse_init_value_decoder_table(). */
  method FillValues(nstates: nat, vbits: nat, vbase: int, f: nat, t: array<ValueEntry>, pos: nat)
    requires Shifted(nstates, f) && pos + f <= t.Length
    modifies t
    ensures t[..pos + f] == old(t[..pos]) + ValueEntries(nstates, vbits, vbase, f, f)
    ensures forall x :: pos + f <= x < t.Length ==> t[x] == old(t[x])
  {
    hide Int16, Shift, Pow2;
    var k := Clz(f) - Clz(nstates);
    assert k == Shift(nstates, f) by { ShiftIs(nstates, f); }
    var j0 := 2 * nstates / Pow2(k) - f;
    var j := 0;
    assert t[..pos + 0] == t[..pos];
    while j < f
      invariant j <= f && t[..pos + j] == old(t[..pos]) + ValueEntries(nstates, vbits, vbase, f, j)
      invariant forall x :: pos + j <= x < t.Length ==> t[x] == old(t[x])
    {
      var e;
      if j < j0 {
        e := ValueEntry((k + vbits) % 256, vbits, Int16((f + j) * Pow2(k) - nstates), vbase);
      } else {
        e := ValueEntry((k - 1 + vbits) % 256, vbits, Int16((j - j0) * Pow2(k - 1)), vbase);
      }
      assert e == ValueOf(nstates, vbits, vbase, f, j);
      t[pos + j] := e;
      j := j + 1;
    }
  }

  /** The decoder may go from an entry to a state. */
  predicate Leads(e: Entry, s: int) {
    e.k >= 0 && e.delta <= s < e.delta + Pow2(e.k)
  }

  lemma EntryLeads(a: nat, symbol: nat, f: nat, j: nat, s: nat)
    requires 0 < f <= Pow2(a) && j < f && s < Pow2(a) && Shifted(Pow2(a), f) &&
      Pow2(a) - Pow2(Shift(Pow2(a), f)) <= 32767
    ensures Leads(EntryOf(Pow2(a), symbol, f, j), s) <==> j == Source(Pow2(a), f, s)
  {
    hide Pow2, Shift, Longer, Int16, Source;
    Tiles(a, f, s);
    DeltasFit(a, f);
    assert Reaches(Pow2(a), f, j, s) <==> j == Source(Pow2(a), f, s);
    assert Bits(Pow2(a), f, j) >= 0 && Int16(Delta(Pow2(a), f, j)) == Delta(Pow2(a), f, j);
  }

  /** In a finished table, every state has exactly one predecessor among the states of each
      symbol in use. */
  lemma OnePredecessor(a: nat, freq: seq<nat>, i: nat, s: nat)
    requires Sum(freq, |freq|) <= Pow2(a) && i < |freq| && freq[i] > 0 && s < Pow2(a)
    requires Shifted(Pow2(a), freq[i]) && Pow2(a) - Pow2(Shift(Pow2(a), freq[i])) <= 32767
    ensures Fits(Pow2(a), freq, |freq|) && 0 <= Source(Pow2(a), freq[i], s) < freq[i]
    ensures Sum(freq, i + 1) == Sum(freq, i) + freq[i] <= Sum(freq, |freq|)
    ensures forall x :: Sum(freq, i) <= x < Sum(freq, i + 1) ==>
      (Leads(Table(Pow2(a), freq, |freq|)[x], s) <==> x == Sum(freq, i) + Source(Pow2(a), freq[i], s))
  {
    hide Pow2, Shift, Longer, Table, EntryOf, Leads, Source;
    ShiftedAll(a, freq, |freq|);
    OneFits(freq, i);
    Tiles(a, freq[i], s);
    SumGrows(freq, i + 1, |freq|);
    forall x | Sum(freq, i) <= x < Sum(freq, i + 1)
      ensures Leads(Table(Pow2(a), freq, |freq|)[x], s) <==> x == Sum(freq, i) + Source(Pow2(a), freq[i], s)
    {
      var none := seq(|freq|, _ => 0);
      TablesAgree(Pow2(a), freq, none, none, |freq|, i, x - Sum(freq, i));
      EntryLeads(a, i, freq[i], x - Sum(freq, i), s);
    }
  }

  lemma OneFits(freq: seq<nat>, i: nat)
    requires i < |freq|
    ensures freq[i] <= Sum(freq, |freq|)
  {
    SumGrows(freq, i + 1, |freq|);
  }
}
