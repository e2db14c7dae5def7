// How short an encoding can be: the shortest form of every value, and when the encoder writes one as short.

module CborShortest {
  import opened Bytes
  import opened Cbor
  import opened CborParse
  import CborRoundTrip
  import Utf8

  // ---------------------------------------------------------------- the shortest form

  /**
   * Lengths whose eight-byte argument costs more than cutting: 2^32 - 1 bytes and up to 23 more, between an open head
   * and a break.
   */
  predicate PaysToCut(n: nat) {
    0x1_0000_0000 <= n <= 0x1_0000_0016
  }

  /** Bytes a string of `n` bytes costs on top of them, at best. */
  function BestExtra(n: nat): nat
    requires n < U64
  {
    if PaysToCut(n) then 8 else 1 + ArgBytes(Narrowest(n))
  }

  function BestString(text: bool, payload: seq<byte>): (it: Item)
    requires |payload| < U64 && (text ==> Utf8.Decode(payload).Some?)
    ensures Ok(it) && Meaning(it) == if text then Text(TextOf(payload)) else Bytes(payload)
    ensures |Render(it)| == |payload| + BestExtra(|payload|)
  {
    if PaysToCut(|payload|) then
      CutInTwo(text, payload);
      Chunked(text, InTwo(payload))
    else Str(text, Narrowest(|payload|), payload)
  }

  function InTwo(payload: seq<byte>): seq<Chunk>
    requires |payload| >= 0xFFFF_FFFF
  {
    [Chunk(W4, payload[..0xFFFF_FFFF]), Chunk(Direct, payload[0xFFFF_FFFF..])]
  }

  lemma CutInTwo(text: bool, payload: seq<byte>)
    requires PaysToCut(|payload|)
    ensures ChunksOk(InTwo(payload)) && ChunkBytes(InTwo(payload)) == payload
    ensures |RenderChunks(text, InTwo(payload))| == |payload| + 6
  {
    var cs := InTwo(payload);
    assert cs[1..] == [cs[1]] && cs[1..][1..] == [];
    assert ChunkBytes([cs[1]]) == cs[1].payload + [];
    assert |RenderChunks(text, [cs[1]])| == 1 + |cs[1].payload|;
  }

  /** Long arrays and maps open, awkward strings cut, the rest as the encoder writes it. */
  function Best(v: Value): (it: Item)
    requires Fits(v)
    ensures Ok(it) && (InRange(v) ==> Meaning(it) == v)
    decreases v, 1
  {
    match v
    case Bytes(b) => BestString(false, b)
    case Text(s) =>
      Utf8.RoundTrip(s);
      BestString(true, Utf8.Encode(s))
    case Tag(tag, inner) => Tagged(Narrowest(tag), tag, Best(inner))
    case Array(items) => if |items| < 256 then Arr(Narrowest(|items|), BestAll(items)) else ArrOpen(BestAll(items))
    case Map(entries) =>
      if |entries| < 256 then Dict(Narrowest(|entries|), BestEntries(entries)) else DictOpen(BestEntries(entries))
    case _ => Canon(v)
  }

  function BestAll(items: seq<Value>): (r: seq<Item>)
    requires AllFit(items)
    ensures |r| == |items| && AllOk(r) && (AllInRange(items) ==> Meanings(r) == items)
    decreases items, 0
  {
    if items == [] then [] else
      var first, rest := Best(items[0]), BestAll(items[1..]);
      assert Meanings([first] + rest)[1..] == Meanings(rest);
      [first] + rest
  }

  function BestEntries(entries: seq<Entry>): (r: seq<Item>)
    requires EntriesFit(entries)
    ensures |r| == 2 * |entries| && AllOk(r) && (EntriesInRange(entries) ==> PairUp(Meanings(r)) == entries)
    decreases entries, 0
  {
    if entries == [] then []
    else
      var e, rest := BestEntry(entries[0]), BestEntries(entries[1..]);
      PairAppend(e[0], e[1], rest);
      e + rest
  }

  function BestEntry(e: Entry): (r: seq<Item>)
    requires EntryFits(e)
    ensures |r| == 2 && Ok(r[0]) && Ok(r[1])
    ensures EntryInRange(e) ==> Entry(Meaning(r[0]), Meaning(r[1])) == e
    decreases e, 2
  {
    [Best(e.key), Best(e.val)]
  }

  // ---------------------------------------------------------------- what it saves

  /** Somewhere inside are 256 or more items or entries, or a string that it pays to cut. */
  predicate HasLong(v: Value)
    decreases v, 1
  {
    match v
    case Bytes(b) => PaysToCut(|b|)
    case Text(s) => PaysToCut(|Utf8.Encode(s)|)
    case Tag(_, inner) => HasLong(inner)
    case Array(items) => |items| >= 256 || AnyLong(items)
    case Map(entries) => |entries| >= 256 || EntriesLong(entries)
    case _ => false
  }

  predicate AnyLong(items: seq<Value>)
    decreases items, 0
  {
    items != [] && (HasLong(items[0]) || AnyLong(items[1..]))
  }

  predicate EntriesLong(entries: seq<Entry>)
    decreases entries, 0
  {
    entries != [] && (EntryLong(entries[0]) || EntriesLong(entries[1..]))
  }

  predicate EntryLong(e: Entry)
    decreases e, 2
  {
    HasLong(e.key) || HasLong(e.val)
  }

  /** `less` is at most `more`, and smaller exactly if `gain`. */
  predicate Saves(less: nat, more: nat, gain: bool) {
    less <= more && (less < more <==> gain)
  }

  /** What an array or map costs on top of its contents, at best and as the encoder writes it. */
  function BestHead(n: nat): nat
    requires n < U64
  {
    if n < 256 then UsualHead(n) else 2
  }

  function UsualHead(n: nat): nat
    requires n < U64
  {
    1 + ArgBytes(Narrowest(n))
  }

  lemma ListRenders(w: Width, items: seq<Item>)
    requires AllOk(items)
    ensures |Render(ArrOpen(items))| == 2 + |RenderAll(items)|
    ensures |items| < ArgLimit(w) ==> |Render(Arr(w, items))| == 1 + ArgBytes(w) + |RenderAll(items)|
  {
  }

  lemma PairsRender(w: Width, items: seq<Item>)
    requires AllOk(items)
    ensures |items| % 2 == 0 ==> |Render(DictOpen(items))| == 2 + |RenderAll(items)|
    ensures |items| % 2 == 0 && |items| / 2 < ArgLimit(w) ==> |Render(Dict(w, items))| == 1 + ArgBytes(w) + |RenderAll(items)|
  {
  }

  lemma ArraySizes(items: seq<Value>)
    requires Fits(Array(items))
    ensures |Render(Best(Array(items)))| == BestHead(|items|) + |RenderAll(BestAll(items))|
  {
    ListRenders(Narrowest(|items|), BestAll(items));
  }

  lemma UsualArraySizes(items: seq<Value>)
    requires Fits(Array(items))
    ensures |Encode(Array(items))| == UsualHead(|items|) + |RenderAll(CanonAll(items))|
  {
    ListRenders(Narrowest(|items|), CanonAll(items));
  }

  lemma MapSizes(entries: seq<Entry>)
    requires Fits(Map(entries))
    ensures |Render(Best(Map(entries)))| == BestHead(|entries|) + |RenderAll(BestEntries(entries))|
  {
    PairsRender(Narrowest(|entries|), BestEntries(entries));
  }

  lemma UsualMapSizes(entries: seq<Entry>)
    requires Fits(Map(entries))
    ensures |Encode(Map(entries))| == UsualHead(|entries|) + |RenderAll(CanonEntries(entries))|
  {
    PairsRender(Narrowest(|entries|), CanonEntries(entries));
  }

  lemma TextSaves(s: string)
    requires Fits(Text(s))
    ensures Saves(|Render(Best(Text(s)))|, |Encode(Text(s))|, HasLong(Text(s)))
  {
    Utf8.RoundTrip(s);
  }

  lemma BytesSave(b: seq<byte>)
    requires Fits(Bytes(b))
    ensures Saves(|Render(Best(Bytes(b)))|, |Encode(Bytes(b))|, HasLong(Bytes(b)))
  {
  }

  lemma ArraySaves(items: seq<Value>)
    requires Fits(Array(items)) && Saves(|RenderAll(BestAll(items))|, |RenderAll(CanonAll(items))|, AnyLong(items))
    ensures Saves(|Render(Best(Array(items)))|, |Encode(Array(items))|, HasLong(Array(items)))
  {
    hide BestAll, CanonAll, RenderAll, Best, Canon;
    ArraySizes(items);
    UsualArraySizes(items);
  }

  lemma MapSaves(entries: seq<Entry>)
    requires Fits(Map(entries))
    requires Saves(|RenderAll(BestEntries(entries))|, |RenderAll(CanonEntries(entries))|, EntriesLong(entries))
    ensures Saves(|Render(Best(Map(entries)))|, |Encode(Map(entries))|, HasLong(Map(entries)))
  {
    hide BestEntries, CanonEntries, RenderAll, Best, Canon;
    MapSizes(entries);
    UsualMapSizes(entries);
  }

  lemma TagSaves(tag: u64, inner: Value)
    requires Fits(inner) && Saves(|Render(Best(inner))|, |Encode(inner)|, HasLong(inner))
    ensures Fits(Tag(tag, inner)) && Saves(|Render(Best(Tag(tag, inner)))|, |Encode(Tag(tag, inner))|, HasLong(Tag(tag, inner)))
  {
  }

  /** The shortest form is never longer than what the encoder writes, and shorter exactly for values with long parts. */
  lemma {:induction false} BestSaves(v: Value)
    requires Fits(v)
    ensures Saves(|Render(Best(v))|, |Encode(v)|, HasLong(v))
    decreases v, 1
  {
    match v
    case Bytes(b) => BytesSave(b);
    case Text(s) => TextSaves(s);
    case Tag(tag, inner) =>
      BestSaves(inner);
      TagSaves(tag, inner);
    case Array(items) =>
      BestAllSaves(items);
      ArraySaves(items);
    case Map(entries) =>
      BestEntriesSave(entries);
      MapSaves(entries);
    case _ =>
  }

  lemma {:induction false} BestAllSaves(items: seq<Value>)
    requires AllFit(items)
    ensures Saves(|RenderAll(BestAll(items))|, |RenderAll(CanonAll(items))|, AnyLong(items))
    decreases items, 0
  {
    if items != [] {
      BestSaves(items[0]);
      BestAllSaves(items[1..]);
      RenderCons(Best(items[0]), BestAll(items[1..]));
      RenderCons(Canon(items[0]), CanonAll(items[1..]));
    }
  }

  lemma {:induction false} BestEntriesSave(entries: seq<Entry>)
    requires EntriesFit(entries)
    ensures Saves(|RenderAll(BestEntries(entries))|, |RenderAll(CanonEntries(entries))|, EntriesLong(entries))
    decreases entries, 0
  {
    if entries != [] {
      BestEntrySaves(entries[0]);
      BestEntriesSave(entries[1..]);
      var b, c := BestEntry(entries[0]), CanonEntry(entries[0]);
      CborRoundTrip.RenderTwo(b[0], b[1], BestEntries(entries[1..]));
      CborRoundTrip.RenderTwo(c[0], c[1], CanonEntries(entries[1..]));
      assert b == [b[0], b[1]] && c == [c[0], c[1]];
    }
  }

  lemma {:induction false} BestEntrySaves(e: Entry)
    requires EntryFits(e)
    ensures var b, c := BestEntry(e), CanonEntry(e);
      Saves(|Render(b[0])| + |Render(b[1])|, |Render(c[0])| + |Render(c[1])|, EntryLong(e))
    decreases e, 2
  {
    BestSaves(e.key);
    BestSaves(e.val);
  }

  // ---------------------------------------------------------------- nothing is shorter

  function HeadsOf(chunks: seq<Chunk>): nat {
    if chunks == [] then 0 else 1 + ArgBytes(chunks[0].w) + HeadsOf(chunks[1..])
  }

  lemma {:induction false} ChunksCost(text: bool, chunks: seq<Chunk>)
    requires ChunksOk(chunks)
    ensures |RenderChunks(text, chunks)| == HeadsOf(chunks) + |ChunkBytes(chunks)|
    decreases |chunks|
  {
    if chunks != [] { ChunksCost(text, chunks[1..]); }
  }

  /** The most that fits behind chunk heads of so many bytes in all. */
  function Room(heads: nat): nat {
    match heads
    case 0 => 0
    case 1 => 23
    case 2 => 0xFF
    case 3 => 0xFFFF
    case 4 => 0x1_0016
    case 5 => 0xFFFF_FFFF
    case _ => 0x1_0000_0016
  }

  lemma {:induction false} ChunksInRoom(chunks: seq<Chunk>)
    requires ChunksOk(chunks) && HeadsOf(chunks) <= 6
    ensures |ChunkBytes(chunks)| <= Room(HeadsOf(chunks))
    decreases |chunks|
  {
    if chunks != [] { ChunksInRoom(chunks[1..]); }
  }

  lemma RoomForBest(n: nat, heads: nat)
    requires n < U64 && (heads <= 6 ==> n <= Room(heads))
    ensures BestExtra(n) <= 2 + heads
  {
  }

  lemma ChunksAreShortest(text: bool, chunks: seq<Chunk>)
    requires ChunksOk(chunks) && |ChunkBytes(chunks)| < U64 && (text ==> Utf8.Decode(ChunkBytes(chunks)).Some?)
    ensures |Render(BestString(text, ChunkBytes(chunks)))| <= |Render(Chunked(text, chunks))|
  {
    ChunksCost(text, chunks);
    if HeadsOf(chunks) <= 6 { ChunksInRoom(chunks); }
    RoomForBest(|ChunkBytes(chunks)|, HeadsOf(chunks));
    assert |Render(Chunked(text, chunks))| == 2 + |RenderChunks(text, chunks)|;
  }

  lemma StringIsShortest(it: Item)
    requires Ok(it) && Fits(Meaning(it)) && (it.Str? || it.Chunked?)
    ensures |Render(Best(Meaning(it)))| <= |Render(it)|
  {
    match it
    case Str(text, _, payload) => if text { Utf8.Canonical(payload); }
    case Chunked(text, chunks) =>
      if text { Utf8.Canonical(ChunkBytes(chunks)); }
      ChunksAreShortest(text, chunks);
  }

  lemma ListIsShortest(it: Item)
    requires Ok(it) && Fits(Meaning(it)) && (it.Arr? || it.ArrOpen?)
    requires |RenderAll(BestAll(Meanings(it.items)))| <= |RenderAll(it.items)|
    ensures |Render(Best(Meaning(it)))| <= |Render(it)|
  {
    ArraySizes(Meanings(it.items));
    ListRenders(if it.Arr? then it.w else Direct, it.items);
  }

  lemma PairsAreShortest(it: Item)
    requires Ok(it) && Fits(Meaning(it)) && (it.Dict? || it.DictOpen?)
    requires |RenderAll(BestEntries(PairUp(Meanings(it.items))))| <= |RenderAll(it.items)|
    ensures |Render(Best(Meaning(it)))| <= |Render(it)|
  {
    MapSizes(PairUp(Meanings(it.items)));
    PairsRender(if it.Dict? then it.w else Direct, it.items);
  }

  /** No encoding of a value, definite or not, is shorter than its shortest form. */
  lemma {:induction false} BestIsShortest(it: Item)
    requires Ok(it) && Fits(Meaning(it))
    ensures |Render(Best(Meaning(it)))| <= |Render(it)|
    decreases it, 1
  {
    match it
    case Str(_, _, _) => StringIsShortest(it);
    case Chunked(_, _) => StringIsShortest(it);
    case Arr(_, items) =>
      BestAreShortest(items);
      ListIsShortest(it);
    case ArrOpen(items) =>
      BestAreShortest(items);
      ListIsShortest(it);
    case Dict(_, items) =>
      BestPairsAreShortest(items);
      PairsAreShortest(it);
    case DictOpen(items) =>
      BestPairsAreShortest(items);
      PairsAreShortest(it);
    case Tagged(_, _, inner) => BestIsShortest(inner);
    case _ =>
  }

  lemma {:induction false} BestAreShortest(items: seq<Item>)
    requires AllOk(items) && AllFit(Meanings(items))
    ensures |RenderAll(BestAll(Meanings(items)))| <= |RenderAll(items)|
    decreases items, 0
  {
    if items != [] {
      BestIsShortest(items[0]);
      assert Meanings(items)[1..] == Meanings(items[1..]);
      BestAreShortest(items[1..]);
      RenderCons(Best(Meaning(items[0])), BestAll(Meanings(items[1..])));
    }
  }

  lemma {:induction false} BestPairsAreShortest(items: seq<Item>)
    requires AllOk(items) && |items| % 2 == 0 && EntriesFit(PairUp(Meanings(items)))
    ensures |RenderAll(BestEntries(PairUp(Meanings(items))))| <= |RenderAll(items)|
    decreases items, 0
  {
    if items != [] {
      var k, v, rest := items[0], items[1], items[2..];
      assert items == [k, v] + rest && items[1..] == [v] + rest && items[1..][1..] == rest;
      PairAppend(k, v, rest);
      var es := PairUp(Meanings(items));
      assert es[0] == Entry(Meaning(k), Meaning(v)) && es[1..] == PairUp(Meanings(rest));
      BestIsShortest(k);
      BestIsShortest(v);
      BestPairsAreShortest(rest);
      CborRoundTrip.RenderTwo(k, v, rest);
      CborRoundTrip.RenderTwo(Best(Meaning(k)), Best(Meaning(v)), BestEntries(PairUp(Meanings(rest))));
    }
  }

  // ---------------------------------------------------------------- when the encoder is as short

  /** The decoder reads all of `bytes` as one item that denotes `v`. */
  predicate Denotes(bytes: seq<byte>, v: Value) {
    && ParseItem(bytes, 0).Got? && ParseItem(bytes, 0).end == |bytes| && Meaning(ParseItem(bytes, 0).value) == v
  }

  lemma RenderDenotes(it: Item)
    requires Ok(it)
    ensures Denotes(Render(it), Meaning(it))
  {
    assert Render(it)[0..|Render(it)|] == Render(it);
    ItemComplete(Render(it), 0, |Render(it)|, it);
  }

  lemma DenotedIsRendered(bytes: seq<byte>, v: Value)
    requires Denotes(bytes, v) && Fits(v)
    ensures |Render(Best(v))| <= |bytes|
  {
    ItemSound(bytes, 0);
    var it := ParseItem(bytes, 0).value;
    assert bytes[0..|bytes|] == bytes;
    BestIsShortest(it);
  }

  /**
   * Some bytes that decode to a value are shorter than what the encoder writes for it exactly when the value has an
   * array or map of 256 or more, or a string of a length that it pays to cut.
   */
  lemma {:induction false} ShorterExactly(v: Value)
    requires Fits(v) && InRange(v)
    ensures Denotes(Encode(v), v)
    ensures (exists bytes: seq<byte> :: Denotes(bytes, v) && |bytes| < |Encode(v)|) <==> HasLong(v)
  {
    RenderDenotes(Canon(v));
    RenderDenotes(Best(v));
    BestSaves(v);
    if HasLong(v) {
      assert Denotes(Render(Best(v)), v) && |Render(Best(v))| < |Encode(v)|;
    } else {
      forall bytes: seq<byte> | Denotes(bytes, v) ensures |bytes| >= |Encode(v)| {
        DenotedIsRendered(bytes, v);
      }
    }
  }

  /** A byte string of 2^32 bytes is written with a nine-byte head; cut in two it takes a byte less. */
  lemma LongStringCutsShorter(b: seq<byte>)
    requires |b| == 0x1_0000_0000
    ensures |Encode(Bytes(b))| == |b| + 9
    ensures var it := Chunked(false, InTwo(b)); Ok(it) && Meaning(it) == Bytes(b) && |Render(it)| == |b| + 8
  {
    CutInTwo(false, b);
  }
}
