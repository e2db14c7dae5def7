// What CBOR decoding and canonical encoding promise together: round trips in context, decoding that depends on
// exactly the bytes it consumes, the shortest form, and normalisation of a CBOR sequence.

module CborRoundTrip {
  import opened Bytes
  import opened Cbor
  import opened CborParse
  import Utf8

  /** The value at `pos` and where it ends. */
  function Decode(bytes: seq<byte>, pos: nat): Read<Value> {
    match ParseItem(bytes, pos) case Bad => Bad case Got(it, end) => Got(Meaning(it), end)
  }

  /**
   * Decoding what was encoded, with anything before and behind it, stops exactly at its end; it gives the same value
   * back exactly when every integer in it is in the range of majors 0 and 1.
   */
  lemma RoundTripInContext(v: Value, prefix: seq<byte>, suffix: seq<byte>)
    requires Fits(v)
    ensures var r := Decode(prefix + Encode(v) + suffix, |prefix|);
      r.Got? && r.end == |prefix| + |Encode(v)| && (r.value == v <==> InRange(v))
  {
    var bytes, e := prefix + Encode(v) + suffix, |prefix| + |Encode(v)|;
    assert bytes[|prefix|..e] == Encode(v);
    ItemComplete(bytes, |prefix|, e, Canon(v));
  }

  /** What is written for `v` is read, to its end, as `w`. */
  predicate ReadsAs(v: Value, w: Value)
    requires Fits(v)
  {
    Decode(Encode(v), 0) == Got(w, |Encode(v)|)
  }

  function Reduced(i: int): int {
    if i >= 0 then i % U64 else -1 - (-1 - i) % U64
  }

  /** An integer comes back reduced to 64 bits, on its side of zero. */
  lemma IntegerComesBackAs(i: int)
    ensures ReadsAs(Integer(i), Integer(Reduced(i)))
  {
    var bytes := Encode(Integer(i));
    assert bytes[0..|bytes|] == bytes;
    ItemComplete(bytes, 0, |bytes|, Canon(Integer(i)));
  }

  /** So the first integer out of range is read as zero. */
  lemma BigIntegerWraps(i: int)
    requires i == U64
    ensures ReadsAs(Integer(i), Integer(0))
  {
    IntegerComesBackAs(i);
    assert Reduced(i) == 0;
  }

  /** Decoding depends only on the bytes it consumes, wherever they stand. */
  lemma DecodeIsLocal(bytes: seq<byte>, pos: nat, other: seq<byte>, at: nat)
    requires Decode(bytes, pos).Got?
    requires var n := Decode(bytes, pos).end - pos;
      at + n <= |other| && other[at..at + n] == bytes[pos..pos + n]
    ensures Decode(bytes, pos).end > pos
    ensures Decode(other, at) == Got(Decode(bytes, pos).value, at + Decode(bytes, pos).end - pos)
  {
    ItemSound(bytes, pos);
    var r := ParseItem(bytes, pos);
    ItemComplete(other, at, at + r.end - pos, r.value);
  }

  /** Cutting the input anywhere inside an item makes decoding it fail. */
  lemma TruncatedIsRefused(bytes: seq<byte>, pos: nat, cut: nat)
    requires Decode(bytes, pos).Got? && cut < Decode(bytes, pos).end
    ensures Decode(bytes[..cut], pos) == Bad
  {
    if ParseItem(bytes[..cut], pos).Got? {
      var r := ParseItem(bytes[..cut], pos);
      ItemSound(bytes[..cut], pos);
      assert bytes[..cut][pos..r.end] == bytes[pos..r.end];
      ItemComplete(bytes, pos, r.end, r.value);
      assert false;
    }
  }

  /** No encoding is a proper prefix of another, and none belongs to two parse trees. */
  lemma Unambiguous(a: Item, b: Item, moreA: seq<byte>, moreB: seq<byte>)
    requires Ok(a) && Ok(b) && Render(a) + moreA == Render(b) + moreB
    ensures a == b && moreA == moreB
  {
    var bytes := Render(a) + moreA;
    assert bytes[0..|Render(a)|] == Render(a) && bytes[0..|Render(b)|] == Render(b);
    ItemComplete(bytes, 0, |Render(a)|, a);
    ItemComplete(bytes, 0, |Render(b)|, b);
    assert moreA == bytes[|Render(a)|..] && moreB == bytes[|Render(b)|..];
  }

  // ---------------------------------------------------------------- every decoded value can be encoded

  lemma {:induction false} ChunkBytesFit(text: bool, chunks: seq<Chunk>)
    requires ChunksOk(chunks)
    ensures |ChunkBytes(chunks)| <= |RenderChunks(text, chunks)|
    decreases |chunks|
  {
    if chunks != [] { ChunkBytesFit(text, chunks[1..]); }
  }

  lemma {:induction false} ItemCountFits(items: seq<Item>)
    requires AllOk(items)
    ensures |items| <= |RenderAll(items)|
    decreases |items|
  {
    if items != [] { ItemCountFits(items[1..]); }
  }

  /** A tree written in fewer than 2^64 bytes denotes a value that encodes back without loss. */
  lemma {:induction false} MeaningEncodes(it: Item)
    requires Ok(it) && |Render(it)| < U64
    ensures Fits(Meaning(it)) && InRange(Meaning(it))
    decreases it, 1
  {
    match it
    case Str(text, _, payload) => if text { Utf8.Canonical(payload); }
    case Chunked(text, chunks) =>
      ChunkBytesFit(text, chunks);
      if text { Utf8.Canonical(ChunkBytes(chunks)); }
    case Arr(_, items) => MeaningsEncode(items);
    case ArrOpen(items) => MeaningsEncode(items);
    case Dict(_, items) => MeaningsEncode(items);
    case DictOpen(items) => MeaningsEncode(items);
    case Tagged(_, _, inner) => MeaningEncodes(inner);
    case _ =>
  }

  lemma {:induction false} MeaningsEncode(items: seq<Item>)
    requires AllOk(items) && |RenderAll(items)| < U64
    ensures |items| < U64 && AllFit(Meanings(items)) && AllInRange(Meanings(items))
    ensures EntriesFit(PairUp(Meanings(items))) && EntriesInRange(PairUp(Meanings(items)))
    decreases items, 0
  {
    ItemCountFits(items);
    if items != [] {
      MeaningEncodes(items[0]);
      MeaningsEncode(items[1..]);
      assert Meanings(items)[1..] == Meanings(items[1..]);
    }
    PairsEncode(Meanings(items));
  }

  lemma {:induction false} PairsEncode(flat: seq<Value>)
    requires AllFit(flat) && AllInRange(flat)
    ensures EntriesFit(PairUp(flat)) && EntriesInRange(PairUp(flat))
    decreases |flat|
  {
    if |flat| >= 2 {
      assert AllFit(flat[1..]) && AllInRange(flat[1..]) && flat[1..][1..] == flat[2..];
      PairsEncode(flat[2..]);
      assert PairUp(flat)[1..] == PairUp(flat[2..]);
    }
  }

  // ---------------------------------------------------------------- shortest form

  /** No indefinite-length head anywhere in the tree. */
  predicate Definite(it: Item)
    decreases it, 1
  {
    match it
    case Chunked(_, _) => false
    case ArrOpen(_) => false
    case DictOpen(_) => false
    case Arr(_, items) => AllDefinite(items)
    case Dict(_, items) => AllDefinite(items)
    case Tagged(_, _, inner) => Definite(inner)
    case _ => true
  }

  predicate AllDefinite(items: seq<Item>)
    decreases items, 0
  {
    items == [] || (Definite(items[0]) && AllDefinite(items[1..]))
  }

  /** No definite-length encoding of a value is shorter than the one the encoder writes. */
  lemma {:induction false} CanonIsShortest(it: Item)
    requires Ok(it) && Definite(it) && |Render(it)| < U64
    ensures Fits(Meaning(it)) && |Encode(Meaning(it))| <= |Render(it)|
    decreases it, 1
  {
    MeaningEncodes(it);
    match it
    case Str(text, _, payload) => if text { Utf8.Canonical(payload); }
    case Arr(_, items) =>
      MeaningsEncode(items);
      CanonsAreShortest(items);
    case Dict(_, items) =>
      MeaningsEncode(items);
      EntryCanonsAreShortest(items);
    case Tagged(_, _, inner) => CanonIsShortest(inner);
    case _ =>
  }

  lemma {:induction false} CanonsAreShortest(items: seq<Item>)
    requires AllOk(items) && AllDefinite(items) && |RenderAll(items)| < U64 && AllFit(Meanings(items))
    ensures |RenderAll(CanonAll(Meanings(items)))| <= |RenderAll(items)|
    decreases items, 0
  {
    if items != [] {
      CanonIsShortest(items[0]);
      assert Meanings(items)[1..] == Meanings(items[1..]);
      CanonsAreShortest(items[1..]);
      RenderCons(Canon(Meaning(items[0])), CanonAll(Meanings(items[1..])));
    }
  }

  lemma {:induction false} EntryCanonsAreShortest(items: seq<Item>)
    requires AllOk(items) && AllDefinite(items) && |RenderAll(items)| < U64 && |items| % 2 == 0
    requires EntriesFit(PairUp(Meanings(items)))
    ensures |RenderAll(CanonEntries(PairUp(Meanings(items))))| <= |RenderAll(items)|
    decreases items, 0
  {
    if items != [] {
      var k, v, rest := items[0], items[1], items[2..];
      assert items == [k, v] + rest && items[1..] == [v] + rest && items[1..][1..] == rest;
      CanonIsShortest(k);
      CanonIsShortest(v);
      PairAppend(k, v, rest);
      assert PairUp(Meanings(items))[1..] == PairUp(Meanings(rest));
      EntryCanonsAreShortest(rest);
      RenderTwo(k, v, rest);
      RenderTwo(Canon(Meaning(k)), Canon(Meaning(v)), CanonEntries(PairUp(Meanings(rest))));
    }
  }

  lemma RenderTwo(k: Item, v: Item, rest: seq<Item>)
    requires Ok(k) && Ok(v) && AllOk(rest)
    ensures AllOk([k, v] + rest) && RenderAll([k, v] + rest) == Render(k) + (Render(v) + RenderAll(rest))
  {
    RenderCons(v, rest);
    RenderCons(k, [v] + rest);
    assert [k] + ([v] + rest) == [k, v] + rest;
  }

  /** The bound needs definite lengths: 256 nulls between an indefinite head and a break are one byte shorter. */
  lemma IndefiniteCanBeShorter()
    ensures var it := ArrOpen(seq(256, _ => Simple(22)));
      Ok(it) && Fits(Meaning(it)) && |Encode(Meaning(it))| == |Render(it)| + 1
  {
    var it := ArrOpen(seq(256, _ => Simple(22)));
    Nulls(256);
    assert Canon(Meaning(it)) == Arr(W2, it.items);
  }

  lemma {:induction false} Nulls(n: nat)
    ensures var items := seq(n, _ => Simple(22));
      AllOk(items) && |RenderAll(items)| == n && AllFit(Meanings(items)) && CanonAll(Meanings(items)) == items
  {
    var items := seq(n, _ => Simple(22));
    if n > 0 {
      assert items[1..] == seq(n - 1, _ => Simple(22));
      Nulls(n - 1);
      assert Meanings(items)[1..] == Meanings(items[1..]);
    }
  }

  // ---------------------------------------------------------------- normalising a CBOR sequence

  /** The items from `pos` to the end of the input. */
  function ParseSequence(bytes: seq<byte>, pos: nat): Option<seq<Item>>
    decreases |bytes| - pos
  {
    if pos >= |bytes| then Some([])
    else
      match ParseItem(bytes, pos)
      case Bad => None
      case Got(first, at) =>
        match ParseSequence(bytes, at) { case None => None case Some(rest) => Some([first] + rest) }
  }

  lemma SliceSplit(bytes: seq<byte>, pos: nat, mid: nat)
    requires pos <= mid <= |bytes|
    ensures bytes[pos..] == bytes[pos..mid] + bytes[mid..]
  {
  }

  lemma {:induction false} SequenceSound(bytes: seq<byte>, pos: nat)
    requires pos <= |bytes| && ParseSequence(bytes, pos).Some?
    ensures var items := ParseSequence(bytes, pos).value; AllOk(items) && RenderAll(items) == bytes[pos..]
    decreases |bytes| - pos
  {
    if pos < |bytes| {
      ItemSound(bytes, pos);
      var r := ParseItem(bytes, pos);
      SequenceSound(bytes, r.end);
      RenderCons(r.value, ParseSequence(bytes, r.end).value);
      SliceSplit(bytes, pos, r.end);
    }
  }

  lemma {:induction false} SequenceComplete(bytes: seq<byte>, pos: nat, items: seq<Item>)
    requires pos <= |bytes| && AllOk(items) && bytes[pos..] == RenderAll(items)
    ensures ParseSequence(bytes, pos) == Some(items)
    decreases |items|
  {
    if items != [] {
      var mid := pos + |Render(items[0])|;
      FillsSplit(bytes, pos, |bytes|, Render(items[0]), RenderAll(items[1..]));
      ItemComplete(bytes, pos, mid, items[0]);
      SequenceComplete(bytes, mid, items[1..]);
      assert [items[0]] + items[1..] == items;
    }
  }

  /** The values of a sequence, as the decoder reads them. */
  function Values(bytes: seq<byte>): Option<seq<Value>> {
    match ParseSequence(bytes, 0) case None => None case Some(items) => Some(Meanings(items))
  }

  /** Decode every item and encode it again. */
  function Normalize(bytes: seq<byte>): (r: Option<seq<byte>>)
    requires |bytes| < U64
  {
    match ParseSequence(bytes, 0)
    case None => None
    case Some(items) =>
      SequenceSound(bytes, 0);
      assert RenderAll(items) == bytes;
      MeaningsEncode(items);
      Some(RenderAll(CanonAll(Meanings(items))))
  }

  /** Normalising keeps every value; what comes out is canonical, and normalising it again changes nothing. */
  lemma NormalizeKeepsMeaning(bytes: seq<byte>)
    requires |bytes| < U64 && Normalize(bytes).Some?
    ensures var out := Normalize(bytes).value;
      Values(out) == Values(bytes) && (|out| < U64 ==> Normalize(out) == Some(out))
  {
    SequenceSound(bytes, 0);
    var items := ParseSequence(bytes, 0).value;
    assert RenderAll(items) == bytes;
    MeaningsEncode(items);
    var canon := CanonAll(Meanings(items));
    var out := Normalize(bytes).value;
    assert out[0..] == RenderAll(canon);
    SequenceComplete(out, 0, canon);
    assert Meanings(canon) == Meanings(items);
  }

  /** A sequence without indefinite lengths never grows, so the result is again a byte string that fits. */
  lemma NormalizeNeverGrows(bytes: seq<byte>)
    requires |bytes| < U64 && ParseSequence(bytes, 0).Some? && AllDefinite(ParseSequence(bytes, 0).value)
    ensures Normalize(bytes).Some? && |Normalize(bytes).value| <= |bytes|
  {
    SequenceSound(bytes, 0);
    var items := ParseSequence(bytes, 0).value;
    assert RenderAll(items) == bytes;
    MeaningsEncode(items);
    CanonsAreShortest(items);
  }
}
