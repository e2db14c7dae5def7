// When reading a bits value leaves 32 bits: the offset and positions are u32, so a checked build stops there and any other
// wraps. Exactly which span lists do that, and that the encoder writes none of them.

module YangBitsOverflow {
  import opened Bytes
  import opened YangBits
  import C = Cbor

  const U32: int := 0x1_0000_0000

  predicate AnyBeyond(ps: seq<nat>) {
    exists i :: 0 <= i < |ps| && ps[i] >= U32
  }

  /** Byte strings below 4 GiB assumed, some addition or multiplication of the loop over spans, bytes and bits leaves 32 bits. */
  predicate Overflows(items: seq<C.Value>, off: nat) {
    if items == [] then false
    else
      match items[0]
      case Integer(i) => off + Low32(i) as int >= U32 || Overflows(items[1..], off + Low32(i) as nat)
      case Bytes(b) => AnyBeyond(SetBits(b, off)) || off + |b| >= U32 || Overflows(items[1..], off + |b|)
      case _ => false
  }

  // ---------------------------------------------------------------- the same in unbounded numbers

  /** What is read of a span list; the loop stops at the first item that is neither a span nor a gap. */
  function Wellformed(items: seq<C.Value>): seq<C.Value> {
    if items == [] || !(items[0].Integer? || items[0].Bytes?) then [] else [items[0]] + Wellformed(items[1..])
  }

  /** The offset behind the list. */
  function End(items: seq<C.Value>, off: nat): nat {
    if items == [] then off
    else
      match items[0]
      case Integer(i) => End(items[1..], off + Low32(i) as nat)
      case Bytes(b) => End(items[1..], off + |b|)
      case _ => End(items[1..], off)
  }

  /** The positions of all bits set, without any limit. */
  function AllPositions(items: seq<C.Value>, off: nat): seq<nat> {
    if items == [] then []
    else
      match items[0]
      case Integer(i) => AllPositions(items[1..], off + Low32(i) as nat)
      case Bytes(b) => SetBits(b, off) + AllPositions(items[1..], off + |b|)
      case _ => AllPositions(items[1..], off)
  }

  lemma {:induction false} EndGrows(items: seq<C.Value>, off: nat)
    ensures off <= End(items, off)
    decreases |items|
  {
    if items != [] {
      match items[0]
      case Integer(i) => EndGrows(items[1..], off + Low32(i) as nat);
      case Bytes(b) => EndGrows(items[1..], off + |b|);
      case _ => EndGrows(items[1..], off);
    }
  }

  lemma BeyondConcat(a: seq<nat>, b: seq<nat>)
    ensures AnyBeyond(a + b) <==> AnyBeyond(a) || AnyBeyond(b)
  {
    if AnyBeyond(a) {
      var i :| 0 <= i < |a| && a[i] >= U32;
      assert (a + b)[i] >= U32;
    }
    if AnyBeyond(b) {
      var i :| 0 <= i < |b| && b[i] >= U32;
      assert (a + b)[|a| + i] >= U32;
    }
  }

  /** It overflows exactly if the spans and gaps that are read add up to 4 GiB, or a bit is set beyond 32-bit positions. */
  lemma {:induction false} OverflowExactly(items: seq<C.Value>, off: nat)
    requires off < U32
    ensures var read := Wellformed(items);
      Overflows(items, off) <==> End(read, off) >= U32 || AnyBeyond(AllPositions(read, off))
    decreases |items|, 0
  {
    var read := Wellformed(items);
    if read != [] {
      assert read[1..] == Wellformed(items[1..]);
      match items[0]
      case Integer(i) => ExactlyBehind(items[1..], off + Low32(i) as nat);
      case Bytes(b) =>
        ExactlyBehind(items[1..], off + |b|);
        BeyondConcat(SetBits(b, off), AllPositions(read[1..], off + |b|));
    }
  }

  lemma {:induction false} ExactlyBehind(items: seq<C.Value>, off: nat)
    ensures var read := Wellformed(items);
      off >= U32 || Overflows(items, off) <==> End(read, off) >= U32 || AnyBeyond(AllPositions(read, off))
    decreases |items|, 1
  {
    if off < U32 { OverflowExactly(items, off); } else { EndGrows(Wellformed(items), off); }
  }

  // ---------------------------------------------------------------- without overflow

  lemma {:induction false} NotBeyond(ps: seq<nat>)
    requires !AnyBeyond(ps)
    ensures AllLow32(ps) == ps
  {
    assert forall i :: 0 <= i < |ps| ==> ps[i] < U32;
    LowIsSame(ps);
  }

  /** As long as nothing overflows, nothing wraps either: the positions read are the true ones. */
  lemma {:induction false} WithoutOverflow(items: seq<C.Value>, off: nat)
    requires off < U32 && !Overflows(items, off) && SpanPositions(items, off).Some?
    ensures SpanPositions(items, off) == Some(AllPositions(items, off))
    decreases |items|
  {
    if items != [] {
      match items[0]
      case Integer(i) => WithoutOverflow(items[1..], off + Low32(i) as nat);
      case Bytes(b) =>
        NotBeyond(SetBits(b, off));
        WithoutOverflow(items[1..], off + |b|);
    }
  }

  lemma {:induction false} SpansStayBelow(items: seq<C.Value>, off: nat)
    requires Alternates(items) && 8 * (off + |Expand(items)|) <= U32
    ensures !Overflows(items, off)
    decreases |items|
  {
    if items != [] {
      match items[0]
      case Integer(i) => SpansStayBelow(items[1..], off + i);
      case Bytes(b) =>
        SetBitsAscend(b, off);
        SpansStayBelow(items[1..], off + |b|);
    }
  }

  /** What the encoder writes is read without overflow, for all names of the type. */
  lemma EncodedNeverOverflows(bits: seq<BitDef>, names: seq<string>)
    requires EncodeNames(bits, names).Some?
    ensures SpanList(EncodeNames(bits, names).value).Some?
    ensures !Overflows(SpanList(EncodeNames(bits, names).value).value, 0)
  {
    var ps := PositionsOf(bits, names).value;
    var bytes := Pack(ps);
    PositionsBounded(bits, names);
    SpanListOfValue(Spans(bytes, 0));
    if ps == [] {
      assert Spans(bytes, 0) == [];
    } else {
      PackEndsSet(ps);
      assert MaxOf(ps) in ps;
      SpansOfFew(bytes);
    }
  }

  lemma SpansOfFew(bytes: seq<byte>)
    requires bytes != [] && bytes[|bytes| - 1] != 0 && 8 * |bytes| <= U32
    ensures !Overflows(Spans(bytes, 0), 0)
  {
    SpansAlternate(bytes, 0);
    SpansExpand(bytes, 0);
    assert Zeros(0) + bytes == bytes;
    SpansStayBelow(Spans(bytes, 0), 0);
  }

  /** A gap of 2^29 bytes and a byte with its lowest bit: position 2^32 overflows, and where it wraps it reads as 0. */
  lemma OverflowIsReachable(name: string)
    ensures var items := [C.Integer(0x2000_0000), C.Bytes([1])];
      Overflows(items, 0) && DecodeNames([BitDef(name, 0)], C.Array(items)) == Some([name])
  {
    var items := [C.Integer(0x2000_0000), C.Value.Bytes([1])];
    assert items[1..] == [C.Value.Bytes([1])] && items[1..][1..] == [];
    var off := 0x2000_0000;
    LastBit(off);
    assert SpanPositions([C.Value.Bytes([1])], off) == Prepend(AllLow32(SetBits([1], off)), SpanPositions([], off + 1));
    assert SpanPositions(items, 0) == Some([0]);
    var bits := [BitDef(name, 0)];
    assert NameAt(bits, 0) == Some(name) && [0][1..] == [];
    assert NamesAt(bits, [0]) == [name] + NamesAt(bits, []);
    assert [name] + NamesAt(bits, []) == [name];
    assert DecodeNames(bits, C.Array(items)) == Some(NamesAt(bits, [0]));
  }

  lemma LastBit(off: nat)
    requires off == 0x2000_0000
    ensures SetBits([1], off) == [8 * off] && AnyBeyond(SetBits([1], off)) && AllLow32(SetBits([1], off)) == [0]
  {
    assert ByteBits(1, 8 * off) == [8 * off] + ByteBits(0, 8 * off + 1);
    assert [1][1..] == [] && SetBits([], off + 1) == [];
    assert SetBits([1], off)[0] == U32;
    assert AllLow32([8 * off]) == [Low32(8 * off) as nat] + AllLow32([]);
  }
}
