/** What the tables of Fse are for: a message that was encoded symbol by symbol, from the
    last to the first, is decoded again from the first to the last (lzfse_fse.h). */
module FseCoding {
  import opened Fse

  // The stream of bits

  function Quotient(x: nat, p: nat): nat
    requires p > 0
  {
    x / p
  }

  function Remainder(x: nat, p: nat): nat
    requires p > 0
  {
    x % p
  }

  lemma DivMod(x: nat, q: nat, p: nat)
    requires x < p
    ensures Quotient(x + q * p, p) == q && Remainder(x + q * p, p) == x
  {
    InBlock(q, x + q * p, p);
    assert x + q * p == (x + q * p) / p * p + (x + q * p) % p;
  }

  /** The last bits that were pushed are the first to be pulled. */
  datatype Stream = Stream(accum: nat, nbits: nat) {
    predicate Valid() { accum < Pow2(nbits) }

    function Push(n: nat, b: nat): (s: Stream)
      ensures s.nbits == nbits + n
    {
      Stream(accum + b * Pow2(nbits), nbits + n)
    }

    /** fse_in_pull(): the bits, and what is left. */
    function Pull(n: nat): Pulled
      requires n <= nbits
    {
      Pulled(Quotient(accum, Pow2(nbits - n)), Stream(Remainder(accum, Pow2(nbits - n)), nbits - n))
    }
  }

  datatype Pulled = Pulled(bits: nat, rest: Stream)

  lemma PullPushed(s: Stream, n: nat, b: nat)
    requires s.Valid() && b < Pow2(n)
    ensures s.Push(n, b).Valid() && s.Push(n, b).Pull(n) == Pulled(b, s)
  {
    hide Pow2, Quotient, Remainder;
    BothBits(s.accum, s.nbits, b, n);
    DivMod(s.accum, b, Pow2(s.nbits));
    assert s.nbits + n - n == s.nbits;
  }

  lemma BothBits(x: nat, m: nat, b: nat, n: nat)
    requires x < Pow2(m) && b < Pow2(n)
    ensures x + b * Pow2(m) < Pow2(m + n)
  {
    hide Pow2;
    Pow2Add(m, n);
    MulLess(b + 1, Pow2(n), Pow2(m));
    Distribute(b, 1, Pow2(m));
  }

  // Symbols

  /** Some symbols or values, and where the decoder is after them. */
  datatype Result = Result(msg: seq<int>, state: int, stream: Stream)

  /** fse_decode() */
  function Decode(t: seq<Entry>, state: nat, s: Stream): Result
    requires state < |t| && 0 <= t[state].k <= s.nbits
  {
    var p := s.Pull(t[state].k);
    Result([t[state].symbol], t[state].delta + p.bits, p.rest)
  }

  /** Some tables for which the deltas fit in their 16 bits, and the symbols in their 8. */
  ghost predicate Codable(a: nat, freq: seq<nat>) {
    && Sum(freq, |freq|) <= Pow2(a) && |freq| <= 256
    && forall i :: 0 <= i < |freq| && freq[i] > 0 ==> DeltasExact(a, freq[i])
  }

  predicate DeltasExact(a: nat, f: nat) {
    f > 0 && Shift(Pow2(a), f) >= 0 && Pow2(a) - Pow2(Shift(Pow2(a), f)) <= 32767
  }

  /** Tables of up to 2^15 states always are. */
  lemma SmallCodable(a: nat, freq: seq<nat>)
    requires a <= 15 && Sum(freq, |freq|) <= Pow2(a) && |freq| <= 256
    ensures Codable(a, freq)
  {
    hide Shift, Longer;
    assert Pow2(15) == 32768 by { assert Pow2(5) == 32 && Pow2(10) == 1024; }
    Pow2Grows(a, 15);
    forall i | 0 <= i < |freq| && freq[i] > 0
      ensures DeltasExact(a, freq[i])
    {
      OneFits(freq, i);
      ShiftBounds(a, freq[i]);
    }
  }

  /** The decoder goes from a state to another one with some symbol. */
  predicate Goes(e: Entry, symbol: nat, state: nat) {
    e.symbol == symbol && Leads(e, state)
  }

  /** The entry from which the decoder reaches a state with some symbol. */
  ghost function From(a: nat, freq: seq<nat>, i: nat, state: nat): (x: nat)
    requires Codable(a, freq) && i < |freq| && freq[i] > 0 && state < Pow2(a)
    ensures x < Sum(freq, |freq|) && Fits(Pow2(a), freq, |freq|)
    ensures Sum(freq, i) <= x < Sum(freq, i) + freq[i]
    ensures Goes(Table(Pow2(a), freq, |freq|)[x], i, state)
  {
    FromIs(a, freq, i, state);
    Sum(freq, i) + Source(Pow2(a), freq[i], state)
  }

  lemma FromIs(a: nat, freq: seq<nat>, i: nat, state: nat)
    requires Codable(a, freq) && i < |freq| && freq[i] > 0 && state < Pow2(a)
    ensures Fits(Pow2(a), freq, |freq|) && Shifted(Pow2(a), freq[i])
    ensures var j := Source(Pow2(a), freq[i], state);
      && 0 <= j < freq[i] && Sum(freq, i) + j < Sum(freq, |freq|)
      && Goes(Table(Pow2(a), freq, |freq|)[Sum(freq, i) + j], i, state)
  {
    hide Pow2, Shift, Longer, Source, Sum, Table, Fits, Leads;
    TableIs(a, freq);
    OneFits(freq, i);
    AllShifted(a, freq[i]);
    OnePredecessor(a, freq, i, state);
    var j := Source(Pow2(a), freq[i], state);
    assert EntryAt(Pow2(a), freq, Table(Pow2(a), freq, |freq|), i, j);
  }

  /** All symbols are in use. */
  ghost predicate Usable(freq: seq<nat>, msg: seq<nat>) {
    forall k :: 0 <= k < |msg| ==> msg[k] < |freq| && freq[msg[k]] > 0
  }

  datatype Code = Code(state: nat, stream: Stream)

  /** An encoder that ends in some state, and pushes the bits that the decoder will want. */
  ghost function Encoded(a: nat, freq: seq<nat>, msg: seq<nat>, last: nat, s: Stream): (r: Code)
    requires Codable(a, freq) && Usable(freq, msg) && last < Pow2(a)
    ensures r.state < Pow2(a)
  {
    if msg == [] then Code(last, s)
    else
      var c := Encoded(a, freq, msg[1..], last, s);
      var x := From(a, freq, msg[0], c.state);
      var e := Table(Pow2(a), freq, |freq|)[x];
      Code(x, c.stream.Push(e.k, c.state - e.delta))
  }

  /** As many symbols as wanted, or as many as there are bits for. */
  function Decoded(t: seq<Entry>, count: nat, state: int, s: Stream): Result {
    if count == 0 || !(0 <= state < |t|) || !(0 <= t[state].k <= s.nbits) then Result([], state, s)
    else
      var one := Decode(t, state, s);
      var more := Decoded(t, count - 1, one.state, one.stream);
      more.(msg := one.msg + more.msg)
  }

  /** The decoder undoes one step of the encoder. */
  lemma DecodesOne(t: seq<Entry>, x: nat, symbol: nat, state: nat, s: Stream)
    requires x < |t| && Goes(t[x], symbol, state) && s.Valid()
    ensures var s2 := s.Push(t[x].k, state - t[x].delta);
      s2.Valid() && t[x].k <= s2.nbits && Decode(t, x, s2) == Result([symbol], state, s)
  {
    hide Pow2, Stream.Valid, Stream.Push, Stream.Pull;
    PullPushed(s, t[x].k, state - t[x].delta);
  }

  /** Whatever was encoded comes out again, and the stream and the state are those of before. */
  lemma {:induction false} RoundTrip(a: nat, freq: seq<nat>, msg: seq<nat>, last: nat, s: Stream)
    requires Codable(a, freq) && Usable(freq, msg) && last < Pow2(a) && s.Valid()
    ensures Fits(Pow2(a), freq, |freq|)
    ensures var c := Encoded(a, freq, msg, last, s);
      c.stream.Valid() && Decoded(Table(Pow2(a), freq, |freq|), |msg|, c.state, c.stream) == Result(msg, last, s)
  {
    hide Pow2, Table, Codable, Sum, Fits, Stream.Valid, Stream.Push, Decode, From, Leads;
    TablesFit(a, freq);
    if msg != [] {
      RoundTrip(a, freq, msg[1..], last, s);
      var c := Encoded(a, freq, msg[1..], last, s);
      var x := From(a, freq, msg[0], c.state);
      DecodesOne(Table(Pow2(a), freq, |freq|), x, msg[0], c.state, c.stream);
      assert [msg[0]] + msg[1..] == msg;
      GoesBits(Table(Pow2(a), freq, |freq|)[x], msg[0], c.state);
    }
  }

  // Values

  /** fse_value_decode() */
  function DecodeValue(t: seq<ValueEntry>, state: nat, s: Stream): Result
    requires state < |t| && 0 <= t[state].totalBits <= s.nbits && t[state].valueBits >= 0
  {
    var p, low := s.Pull(t[state].totalBits), Pow2(t[state].valueBits);
    Result([t[state].vbase + Remainder(p.bits, low)], t[state].delta + Quotient(p.bits, low), p.rest)
  }

  function DecodedValues(t: seq<ValueEntry>, count: nat, state: int, s: Stream): Result {
    if count == 0 || !(0 <= state < |t|) || !(0 <= t[state].totalBits <= s.nbits) || t[state].valueBits < 0
    then Result([], state, s)
    else
      var one := DecodeValue(t, state, s);
      var more := DecodedValues(t, count - 1, one.state, one.stream);
      more.(msg := one.msg + more.msg)
  }

  /** Some bits with others above them. */
  function Joined(low: nat, n: nat, high: nat): nat { low + high * Pow2(n) }

  /** A value is a symbol and its distance from the base of that symbol. */
  datatype Value = Value(symbol: nat, extra: nat)

  /** The parameters of a table of values. */
  datatype Params = Params(a: nat, freq: seq<nat>, vbits: seq<nat>, vbase: seq<int>) {
    ghost predicate Valid() {
      && Codable(a, freq) && |freq| == |vbits| == |vbase|
      && forall i :: 0 <= i < |vbits| ==> a + vbits[i] < 256
    }

    predicate Holds(v: Value) {
      && v.symbol < |freq| && v.symbol < |vbits| && v.symbol < |vbase|
      && freq[v.symbol] > 0 && v.extra < Pow2(vbits[v.symbol])
    }

    function Number(v: Value): int
      requires Holds(v)
    {
      vbase[v.symbol] + v.extra
    }
  }

  ghost predicate AllHeld(p: Params, values: seq<Value>) { forall k :: 0 <= k < |values| ==> p.Holds(values[k]) }

  function Numbers(p: Params, values: seq<Value>): seq<int>
    requires AllHeld(p, values)
  {
    if values == [] then [] else [p.Number(values[0])] + Numbers(p, values[1..])
  }

  ghost function EncodedValues(p: Params, values: seq<Value>, last: nat, s: Stream): (r: Code)
    requires p.Valid() && AllHeld(p, values) && last < Pow2(p.a)
    ensures r.state < Pow2(p.a)
  {
    if values == [] then Code(last, s)
    else
      var c, v := EncodedValues(p, values[1..], last, s), values[0];
      var x := From(p.a, p.freq, v.symbol, c.state);
      var e, n := Table(Pow2(p.a), p.freq, |p.freq|)[x], p.vbits[v.symbol];
      Code(x, c.stream.Push(e.k + n, Joined(v.extra, n, c.state - e.delta)))
  }

  /** The bits for the state come with those of the value below them. */
  lemma DecodesValue(t: seq<ValueEntry>, e: Entry, x: nat, symbol: nat, state: nat, extra: nat, s: Stream)
    requires x < |t| && Goes(e, symbol, state) && s.Valid() && t[x].valueBits >= 0 && extra < Pow2(t[x].valueBits)
    requires IsValue(e, t[x], t[x].valueBits, t[x].vbase) && e.k + t[x].valueBits < 256
    ensures var n := t[x].valueBits;
      var s2 := s.Push(e.k + n, Joined(extra, n, state - e.delta));
      && s2.Valid() && t[x].totalBits == e.k + n <= s2.nbits
      && DecodeValue(t, x, s2) == Result([t[x].vbase + extra], state, s)
  {
    hide Pow2, Stream.Valid, Stream.Push, Stream.Pull, Quotient, Remainder;
    var n, b := t[x].valueBits, state - e.delta;
    BothBits(extra, n, b, e.k);
    PullPushed(s, e.k + n, Joined(extra, n, b));
    DivMod(extra, b, Pow2(n));
  }

  /** No entry reads more bits than it takes to number the states. */
  lemma FewBits(a: nat, e: Entry, symbol: nat, f: nat, j: nat)
    requires f > 0 && IsEntry(Pow2(a), e, symbol, f, j)
    ensures e.k <= a
  {
    hide Int16;
    if e.k > a {
      Pow2Grows(a + 1, e.k);
    }
  }

  lemma ValueFrom(p: Params, i: nat, x: nat)
    requires p.Valid() && i < |p.freq| && Sum(p.freq, i) <= x < Sum(p.freq, i) + p.freq[i]
    ensures Fits(Pow2(p.a), p.freq, |p.freq|) && x < Sum(p.freq, |p.freq|)
    ensures var e := Table(Pow2(p.a), p.freq, |p.freq|)[x];
      && IsValue(e, ValueTable(Pow2(p.a), p.freq, p.vbits, p.vbase, |p.freq|)[x], p.vbits[i], p.vbase[i])
      && 0 <= e.k <= p.a
  {
    hide Pow2, Sum, Table, ValueTable, Fits, Int16;
    TablesFit(p.a, p.freq);
    TableIs(p.a, p.freq);
    ValueTableIs(Pow2(p.a), p.freq, p.vbits, p.vbase);
    var j, t := x - Sum(p.freq, i), Table(Pow2(p.a), p.freq, |p.freq|);
    assert EntryAt(Pow2(p.a), p.freq, t, i, j);
    FewBits(p.a, t[x], i, p.freq[i], j);
    var v := ValueTable(Pow2(p.a), p.freq, p.vbits, p.vbase, |p.freq|);
    assert ValueAt(p.freq, t, v, i, j, p.vbits[i], p.vbase[i]);
  }

  /** Any values come out again, too. */
  lemma {:induction false} ValueRoundTrip(p: Params, values: seq<Value>, last: nat, s: Stream)
    requires p.Valid() && AllHeld(p, values) && last < Pow2(p.a) && s.Valid()
    ensures Fits(Pow2(p.a), p.freq, |p.freq|)
    ensures var c, t := EncodedValues(p, values, last, s), ValueTable(Pow2(p.a), p.freq, p.vbits, p.vbase, |p.freq|);
      && c.stream.Valid()
      && DecodedValues(t, |values|, c.state, c.stream) == Result(Numbers(p, values), last, s)
  {
    hide Pow2, Table, ValueTable, Codable, Sum, Fits, Stream.Valid, Stream.Push, DecodeValue, From, Leads, Joined;
    TablesFit(p.a, p.freq);
    if values != [] {
      ValueRoundTrip(p, values[1..], last, s);
      var c, v := EncodedValues(p, values[1..], last, s), values[0];
      var x := From(p.a, p.freq, v.symbol, c.state);
      var e, t := Table(Pow2(p.a), p.freq, |p.freq|)[x], ValueTable(Pow2(p.a), p.freq, p.vbits, p.vbase, |p.freq|);
      ValueFrom(p, v.symbol, x);
      DecodesValue(t, e, x, v.symbol, c.state, v.extra, c.stream);
      GoesBits(e, v.symbol, c.state);
    }
  }

  lemma GoesBits(e: Entry, symbol: nat, state: nat)
    requires Goes(e, symbol, state)
    ensures e.k >= 0 && e.delta <= state
  {
  }

  lemma TablesFit(a: nat, freq: seq<nat>)
    requires Codable(a, freq)
    ensures Fits(Pow2(a), freq, |freq|)
  {
    ShiftedAll(a, freq, |freq|);
  }
}
