// Encoding and decoding bits values as the source runs them: lookups, setting bits in a byte vector, and loops over
// spans, bytes and bits, proved against the functions of the sparse form.

module YangBitsCodec {
  import opened Bytes
  import opened YangBits
  import C = Cbor

  function Before(front: seq<nat>, rest: Option<seq<nat>>): Option<seq<nat>> {
    match rest case None => None case Some(ps) => Some(front + ps)
  }

  lemma {:induction false} BeforeOne(front: seq<nat>, p: nat, rest: Option<seq<nat>>)
    ensures Before([], rest) == rest && Before(front, Before([p], rest)) == Before(front + [p], rest)
  {
    if rest.Some? {
      assert [] + rest.value == rest.value;
      assert front + ([p] + rest.value) == front + [p] + rest.value;
    }
  }

  method LookupPositions(bits: seq<BitDef>, names: seq<string>) returns (r: Option<seq<nat>>)
    ensures r == PositionsOf(bits, names)
  {
    var positions: seq<nat> := [];
    BeforeOne([], 0, PositionsOf(bits, names));
    for i := 0 to |names|
      invariant Before(positions, PositionsOf(bits, names[i..])) == PositionsOf(bits, names)
    {
      assert names[i..][0] == names[i] && names[i..][1..] == names[i + 1..];
      var p := PositionOf(bits, names[i]);
      if p.None? { return None; }
      BeforeOne(positions, p.value, PositionsOf(bits, names[i + 1..]));
      positions := positions + [p.value];
    }
    assert positions + [] == positions;
    return Some(positions);
  }

  /** The names as packed bytes, split into spans; one span alone stands for itself. */
  method EncodeBits(bits: seq<BitDef>, names: seq<string>) returns (r: Option<C.Value>)
    ensures r == EncodeNames(bits, names)
  {
    var positions := LookupPositions(bits, names);
    if positions.None? { return None; }
    var ps := positions.value;
    if ps == [] {
      assert Spans(Pack(ps), 0) == [];
      return Some(C.Array([]));
    }
    var bytes := PackPositions(ps);
    var items := BitsBytesToSpans(bytes);
    if |items| == 1 && items[0].Bytes? { return Some(C.Bytes(items[0].b)); }
    return Some(C.Array(items));
  }

  predicate Fit(ps: seq<nat>, size: nat) {
    forall i :: 0 <= i < |ps| ==> ps[i] / 8 < size
  }

  lemma {:induction false} FitRest(ps: seq<nat>, size: nat, i: nat)
    requires Fit(ps, size) && i <= |ps|
    ensures Fit(ps[i..], size)
  {
  }

  /** Set one bit for each position in a vector just long enough for the last. */
  method PackPositions(ps: seq<nat>) returns (bytes: seq<byte>)
    requires ps != []
    ensures bytes == Pack(ps)
  {
    ghost var size := MaxOf(ps) / 8 + 1;
    bytes := Zeros(MaxOf(ps) / 8 + 1);
    assert ps[0..] == ps && Fit(ps, size);
    for i := 0 to |ps|
      invariant |bytes| == size && Fit(ps, size) && Fit(ps[i..], size)
      invariant SetAll(bytes, ps[i..]) == Pack(ps)
    {
      assert ps[i..][0] == ps[i] && ps[i..][1..] == ps[i + 1..];
      FitRest(ps, size, i + 1);
      WithBitFits8(bytes[ps[i] / 8], ps[i] % 8);
      bytes := bytes[ps[i] / 8 := WithBit(bytes[ps[i] / 8], ps[i] % 8)];
    }
    assert ps[|ps|..] == [];
  }

  lemma {:induction false} NamesConcat(bits: seq<BitDef>, a: seq<nat>, b: seq<nat>)
    ensures NamesAt(bits, a + b) == NamesAt(bits, a) + NamesAt(bits, b)
    decreases |a|
  {
    if a == [] {
      assert a + b == b;
    } else {
      assert (a + b)[1..] == a[1..] + b;
      NamesConcat(bits, a[1..], b);
    }
  }

  lemma {:induction false} LowConcat(a: seq<nat>, b: seq<nat>)
    ensures AllLow32(a + b) == AllLow32(a) + AllLow32(b)
    decreases |a|
  {
    if a == [] {
      assert a + b == b;
    } else {
      assert (a + b)[1..] == a[1..] + b;
      LowConcat(a[1..], b);
    }
  }

  /** The names of a list of raw positions, each cut to 32 bits. */
  function NamesOf(bits: seq<BitDef>, ps: seq<nat>): seq<string> {
    NamesAt(bits, AllLow32(ps))
  }

  lemma {:induction false} NamesOfConcat(bits: seq<BitDef>, a: seq<nat>, b: seq<nat>)
    ensures NamesOf(bits, a + b) == NamesOf(bits, a) + NamesOf(bits, b)
  {
    LowConcat(a, b);
    NamesConcat(bits, AllLow32(a), AllLow32(b));
  }

  lemma {:induction false} NamesOfOne(bits: seq<BitDef>, p: nat)
    ensures NamesOf(bits, [p]) == match NameAt(bits, Low32(p)) case None => [] case Some(n) => [n]
  {
    assert AllLow32([p]) == [Low32(p) as nat] + AllLow32([p][1..]);
    assert NamesAt(bits, [Low32(p) as nat][1..]) == [];
  }

  /** `high` is `b` without its `k` lowest bits. */
  ghost predicate Above(b: nat, k: nat, high: nat) {
    forall j: nat :: BitOf(b, k + j) == BitOf(high, j)
  }

  lemma {:induction false} AboveNext(b: nat, k: nat, high: nat)
    requires Above(b, k, high)
    ensures BitOf(b, k) <==> high % 2 == 1
    ensures Above(b, k + 1, high / 2)
  {
    assert BitOf(b, k + 0) == BitOf(high, 0);
    forall j: nat ensures BitOf(b, k + 1 + j) == BitOf(high / 2, j) {
      assert BitOf(b, k + (j + 1)) == BitOf(high, j + 1);
    }
  }

  /** What the bit loop keeps: `high` holds the bits still to be looked at, and their names are what is missing. */
  ghost predicate BitLoop(bits: seq<BitDef>, b: byte, base: nat, bit: nat, left: nat, high: nat, names: seq<string>) {
    && high < Pow2(left) && Above(b, bit, high)
      && names + NamesOf(bits, ByteBits(high, base + bit)) == NamesOf(bits, ByteBits(b, base))
  }

  lemma {:induction false} BitLoopStart(bits: seq<BitDef>, b: byte, base: nat, left: nat)
    requires left == 8
    ensures BitLoop(bits, b, base, 0, left, b, [])
  {
    Pow2Of8();
    var all := NamesOf(bits, ByteBits(b, base));
    assert [] + all == all;
  }

  lemma {:induction false} BitLoopStep(bits: seq<BitDef>, b: byte, base: nat, bit: nat, left: nat, high: nat, names: seq<string>)
    requires BitLoop(bits, b, base, bit, left, high, names) && left > 0
    ensures var name := NameAt(bits, Low32(base + bit));
      BitLoop(bits, b, base, bit + 1, left - 1, high / 2, if BitOf(b, bit) && name.Some? then names + [name.value] else names)
  {
    AboveNext(b, bit, high);
    NextBit(bits, high, base + bit, names);
    assert Pow2(left) == 2 * Pow2(left - 1);
  }

  lemma {:induction false} BitLoopEnd(bits: seq<BitDef>, b: byte, base: nat, bit: nat, left: nat, high: nat, names: seq<string>)
    requires BitLoop(bits, b, base, bit, left, high, names) && left == 0
    ensures names == NamesOf(bits, ByteBits(b, base))
  {
    assert high == 0 && names + [] == names;
  }

  /** The names of the bits set in one byte, lowest bit first. */
  method ByteNames(bits: seq<BitDef>, b: byte, base: nat) returns (names: seq<string>)
    ensures names == NamesOf(bits, ByteBits(b, base))
  {
    hide BitLoop;
    names := [];
    ghost var high: nat, left: nat := b, 8;
    BitLoopStart(bits, b, base, left);
    for bit := 0 to 8
      invariant left == 8 - bit && BitLoop(bits, b, base, bit, left, high, names)
    {
      BitLoopStep(bits, b, base, bit, left, high, names);
      if BitOf(b, bit) {
        var name := NameAt(bits, Low32(base + bit));
        if name.Some? { names := names + [name.value]; }
      }
      high, left := high / 2, left - 1;
    }
    BitLoopEnd(bits, b, base, 8, left, high, names);
  }

  lemma {:induction false} NextBit(bits: seq<BitDef>, high: nat, base: nat, names: seq<string>)
    ensures var found := if high % 2 == 1 then NamesOf(bits, [base]) else [];
      names + NamesOf(bits, ByteBits(high, base)) == names + found + NamesOf(bits, ByteBits(high / 2, base + 1))
    ensures names + [] == names
    ensures NamesOf(bits, [base]) == match NameAt(bits, Low32(base)) case None => [] case Some(n) => [n]
  {
    NamesOfOne(bits, base);
    if high % 2 == 1 {
      NamesOfConcat(bits, [base], ByteBits(high / 2, base + 1));
    } else if high > 0 {
      assert [] + ByteBits(high / 2, base + 1) == ByteBits(high / 2, base + 1);
    }
  }

  method SpanNames(bits: seq<BitDef>, bytes: seq<byte>, off: nat) returns (names: seq<string>)
    ensures names == NamesOf(bits, SetBits(bytes, off))
  {
    names := [];
    assert bytes[0..] == bytes && [] + NamesOf(bits, SetBits(bytes, off)) == NamesOf(bits, SetBits(bytes, off));
    for i := 0 to |bytes|
      invariant names + NamesOf(bits, SetBits(bytes[i..], off + i)) == NamesOf(bits, SetBits(bytes, off))
    {
      assert bytes[i..][0] == bytes[i] && bytes[i..][1..] == bytes[i + 1..];
      NamesOfConcat(bits, ByteBits(bytes[i], 8 * (off + i)), SetBits(bytes[i + 1..], off + i + 1));
      var some := ByteNames(bits, bytes[i], 8 * (off + i));
      SeqAssoc(names, some, NamesOf(bits, SetBits(bytes[i + 1..], off + i + 1)));
      names := names + some;
    }
    assert names + [] == names;
  }

  /** The names still to come, behind those found. */
  function Found(names: seq<string>, bits: seq<BitDef>, rest: Option<seq<nat>>): Option<seq<string>> {
    match rest case None => None case Some(ps) => Some(names + NamesAt(bits, ps))
  }

  /** The names of the set bits of a bits value: one span, or an array of spans and gaps. */
  method DecodeBits(bits: seq<BitDef>, v: C.Value) returns (r: Option<seq<string>>)
    ensures r == DecodeNames(bits, v)
  {
    if !v.Bytes? && !v.Array? { return None; }
    var items := if v.Bytes? then [v] else v.items;
    FoundNone(bits, SpanPositions(items, 0));
    r := SpanListNames(bits, items);
  }

  method SpanListNames(bits: seq<BitDef>, items: seq<C.Value>) returns (r: Option<seq<string>>)
    ensures r == Found([], bits, SpanPositions(items, 0))
  {
    hide SetBits, NamesOf;
    var names: seq<string> := [];
    var off: u32 := 0;
    assert items[0..] == items;
    for i := 0 to |items|
      invariant Found(names, bits, SpanPositions(items[i..], off)) == Found([], bits, SpanPositions(items, 0))
    {
      assert items[i..] == [items[i]] + items[i + 1..];
      FoundStep(bits, names, items[i], items[i + 1..], items[i..], off);
      match items[i]
      case Integer(gap) => off := Low32(off as int + Low32(gap) as int);
      case Bytes(b) =>
        var some := SpanNames(bits, b, off);
        names := names + some;
        off := Low32(off as int + |b|);
      case _ => return None;
    }
    assert names + [] == names;
    return Some(names);
  }

  lemma {:induction false} FoundStep(bits: seq<BitDef>, names: seq<string>, item: C.Value, rest: seq<C.Value>,
                                     items: seq<C.Value>, off: u32)
    requires items == [item] + rest
    ensures Found(names, bits, SpanPositions(items, off)) ==
      match item
      case Integer(gap) => Found(names, bits, SpanPositions(rest, Low32(off as int + Low32(gap) as int)))
      case Bytes(b) => Found(names + NamesOf(bits, SetBits(b, off)), bits, SpanPositions(rest, Low32(off as int + |b|)))
      case _ => None
  {
    assert items[1..] == rest && items[0] == item;
    if item.Bytes? { FoundMore(bits, names, AllLow32(SetBits(item.b, off)), SpanPositions(rest, Low32(off as int + |item.b|))); }
  }

  lemma {:induction false} FoundNone(bits: seq<BitDef>, rest: Option<seq<nat>>)
    ensures Found([], bits, rest) == match rest case None => None case Some(ps) => Some(NamesAt(bits, ps))
  {
    if rest.Some? { assert [] + NamesAt(bits, rest.value) == NamesAt(bits, rest.value); }
  }

  lemma {:induction false} FoundMore(bits: seq<BitDef>, names: seq<string>, ps: seq<nat>, rest: Option<seq<nat>>)
    ensures Found(names, bits, Prepend(ps, rest)) == Found(names + NamesAt(bits, ps), bits, rest)
  {
    if rest.Some? {
      NamesConcat(bits, ps, rest.value);
      SeqAssoc(names, NamesAt(bits, ps), NamesAt(bits, rest.value));
    }
  }
}
