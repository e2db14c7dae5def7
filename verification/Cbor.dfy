// CBOR data items (RFC 8949): values, the wire grammar with its five argument widths and indefinite
// forms, and the canonical form that cbor/src/encode.rs writes.

module Cbor {
  import opened Bytes
  import opened BigEndian
  import Utf8

  datatype Value =
    | Integer(i: int)
    | Bytes(b: seq<byte>)
    | Text(s: string)
    | Bool(v: bool)
    | Null
    | Tag(tag: u64, inner: Value)
    | Array(items: seq<Value>)
    | Map(entries: seq<Entry>)

  datatype Entry = Entry(key: Value, val: Value)

  // ---------------------------------------------------------------- wire grammar

  /** How a head carries its argument: in the initial byte or in 1, 2, 4 or 8 bytes behind it. */
  datatype Width = Direct | W1 | W2 | W4 | W8

  function ArgBytes(w: Width): nat {
    match w case Direct => 0 case W1 => 1 case W2 => 2 case W4 => 4 case W8 => 8
  }

  /** One more than the largest argument of a width. */
  function ArgLimit(w: Width): nat {
    match w
    case Direct => 24
    case W1 => 0x100
    case W2 => 0x1_0000
    case W4 => 0x1_0000_0000
    case W8 => 0x1_0000_0000_0000_0000
  }

  /** The low five bits of the initial byte. */
  function Info(w: Width, arg: nat): (r: nat)
    requires arg < ArgLimit(w)
    ensures r < 28
  {
    match w case Direct => arg case W1 => 24 case W2 => 25 case W4 => 26 case W8 => 27
  }

  function Head(major: nat, w: Width, arg: nat): (r: seq<byte>)
    requires major < 8 && arg < ArgLimit(w)
    ensures |r| == 1 + ArgBytes(w) && r[0] == 32 * major + Info(w, arg)
  {
    [32 * major + Info(w, arg)] + ToBytes(arg, ArgBytes(w))
  }

  /** The opening of an indefinite-length item. */
  function OpenEnded(major: nat): byte
    requires major < 8
  {
    32 * major + 31
  }

  const BREAK: byte := 0xFF

  datatype Chunk = Chunk(w: Width, payload: seq<byte>)

  /** A parse tree: one encoding of one data item. */
  datatype Item =
    | Unsigned(w: Width, n: u64)
    | Negative(w: Width, n: u64)
    | Str(text: bool, w: Width, payload: seq<byte>)
    | Chunked(text: bool, chunks: seq<Chunk>)
    | Arr(w: Width, items: seq<Item>)
    | ArrOpen(items: seq<Item>)
    | Dict(w: Width, items: seq<Item>)      // keys and values alternate
    | DictOpen(items: seq<Item>)
    | Tagged(w: Width, n: u64, inner: Item)
    | Simple(code: nat)

  function StrMajor(text: bool): nat {
    if text then 3 else 2
  }

  function ChunkBytes(chunks: seq<Chunk>): seq<byte> {
    if chunks == [] then [] else chunks[0].payload + ChunkBytes(chunks[1..])
  }

  predicate ChunksOk(chunks: seq<Chunk>) {
    forall i :: 0 <= i < |chunks| ==> |chunks[i].payload| < ArgLimit(chunks[i].w)
  }

  /** Arguments fit their widths and text is UTF-8 as a whole. */
  predicate Ok(it: Item)
    decreases it, 1
  {
    match it
    case Unsigned(w, n) => n < ArgLimit(w)
    case Negative(w, n) => n < ArgLimit(w)
    case Str(text, w, payload) => |payload| < ArgLimit(w) && (text ==> Utf8.Decode(payload).Some?)
    case Chunked(text, chunks) => ChunksOk(chunks) && (text ==> Utf8.Decode(ChunkBytes(chunks)).Some?)
    case Arr(w, items) => |items| < ArgLimit(w) && AllOk(items)
    case ArrOpen(items) => AllOk(items)
    case Dict(w, items) => |items| % 2 == 0 && |items| / 2 < ArgLimit(w) && AllOk(items)
    case DictOpen(items) => |items| % 2 == 0 && AllOk(items)
    case Tagged(w, n, inner) => n < ArgLimit(w) && Ok(inner)
    case Simple(code) => 20 <= code <= 23
  }

  predicate AllOk(items: seq<Item>)
    decreases items, 0
  {
    items == [] || (Ok(items[0]) && AllOk(items[1..]))
  }

  function RenderChunks(text: bool, chunks: seq<Chunk>): seq<byte>
    requires ChunksOk(chunks)
  {
    if chunks == [] then []
    else Head(StrMajor(text), chunks[0].w, |chunks[0].payload|) + chunks[0].payload + RenderChunks(text, chunks[1..])
  }

  /** The bytes of a parse tree. */
  function Render(it: Item): (r: seq<byte>)
    requires Ok(it)
    ensures |r| >= 1
    decreases it, 1
  {
    match it
    case Unsigned(w, n) => Head(0, w, n)
    case Negative(w, n) => Head(1, w, n)
    case Str(text, w, payload) => Head(StrMajor(text), w, |payload|) + payload
    case Chunked(text, chunks) => [OpenEnded(StrMajor(text))] + RenderChunks(text, chunks) + [BREAK]
    case Arr(w, items) => Head(4, w, |items|) + RenderAll(items)
    case ArrOpen(items) => [OpenEnded(4)] + RenderAll(items) + [BREAK]
    case Dict(w, items) => Head(5, w, |items| / 2) + RenderAll(items)
    case DictOpen(items) => [OpenEnded(5)] + RenderAll(items) + [BREAK]
    case Tagged(w, n, inner) => Head(6, w, n) + Render(inner)
    case Simple(code) => [32 * 7 + code]
  }

  function RenderAll(items: seq<Item>): seq<byte>
    requires AllOk(items)
    decreases items, 0
  {
    if items == [] then [] else Render(items[0]) + RenderAll(items[1..])
  }

  function TextOf(payload: seq<byte>): string {
    match Utf8.Decode(payload) case Some(s) => s case None => ""
  }

  /** The value a parse tree denotes; "undefined" reads as null. */
  function Meaning(it: Item): Value
    decreases it, 1
  {
    match it
    case Unsigned(_, n) => Integer(n)
    case Negative(_, n) => Integer(-1 - n)
    case Str(text, _, payload) => if text then Text(TextOf(payload)) else Bytes(payload)
    case Chunked(text, chunks) => if text then Text(TextOf(ChunkBytes(chunks))) else Bytes(ChunkBytes(chunks))
    case Arr(_, items) => Array(Meanings(items))
    case ArrOpen(items) => Array(Meanings(items))
    case Dict(_, items) => Map(PairUp(Meanings(items)))
    case DictOpen(items) => Map(PairUp(Meanings(items)))
    case Tagged(_, n, inner) => Tag(n, Meaning(inner))
    case Simple(code) => if code == 20 then Bool(false) else if code == 21 then Bool(true) else Null
  }

  function Meanings(items: seq<Item>): (r: seq<Value>)
    ensures |r| == |items|
    decreases items, 0
  {
    if items == [] then [] else [Meaning(items[0])] + Meanings(items[1..])
  }

  /** Alternating keys and values as entries. */
  function PairUp(flat: seq<Value>): (r: seq<Entry>)
    ensures |r| == |flat| / 2
  {
    if |flat| < 2 then [] else [Entry(flat[0], flat[1])] + PairUp(flat[2..])
  }

  // ---------------------------------------------------------------- canonical form

  /** The narrowest width that carries `n`. */
  function Narrowest(n: u64): (w: Width)
    ensures n < ArgLimit(w)
    ensures forall v {:trigger ArgLimit(v)} :: n < ArgLimit(v) ==> ArgBytes(w) <= ArgBytes(v)
  {
    if n < 24 then Direct
    else if n <= 0xFF then W1
    else if n <= 0xFFFF then W2
    else if n <= 0xFFFF_FFFF then W4
    else W8
  }

  const U64: int := 0x1_0000_0000_0000_0000

  /** Lengths and counts fit a u64, as they do for anything held in memory. */
  predicate Fits(v: Value)
    decreases v, 1
  {
    match v
    case Bytes(b) => |b| < U64
    case Text(s) => |Utf8.Encode(s)| < U64
    case Tag(_, inner) => Fits(inner)
    case Array(items) => |items| < U64 && AllFit(items)
    case Map(entries) => |entries| < U64 && EntriesFit(entries)
    case _ => true
  }

  predicate AllFit(items: seq<Value>)
    decreases items, 0
  {
    items == [] || (Fits(items[0]) && AllFit(items[1..]))
  }

  predicate EntriesFit(entries: seq<Entry>)
    decreases entries, 0
  {
    entries == [] || (EntryFits(entries[0]) && EntriesFit(entries[1..]))
  }

  predicate EntryFits(e: Entry)
    decreases e, 2
  {
    Fits(e.key) && Fits(e.val)
  }

  /** Every integer is one that majors 0 and 1 can carry. */
  predicate InRange(v: Value)
    decreases v, 1
  {
    match v
    case Integer(i) => -U64 <= i < U64
    case Tag(_, inner) => InRange(inner)
    case Array(items) => AllInRange(items)
    case Map(entries) => EntriesInRange(entries)
    case _ => true
  }

  predicate AllInRange(items: seq<Value>)
    decreases items, 0
  {
    items == [] || (InRange(items[0]) && AllInRange(items[1..]))
  }

  predicate EntriesInRange(entries: seq<Entry>)
    decreases entries, 0
  {
    entries == [] || (EntryInRange(entries[0]) && EntriesInRange(entries[1..]))
  }

  predicate EntryInRange(e: Entry)
    decreases e, 2
  {
    InRange(e.key) && InRange(e.val)
  }

  /**
   * The parse tree the encoder writes: definite lengths and narrowest arguments throughout. The cast of an
   * integer to u64 drops its high bits, so the tree denotes `v` exactly when every integer is in range.
   */
  function Canon(v: Value): (it: Item)
    requires Fits(v)
    ensures Ok(it) && (Meaning(it) == v <==> InRange(v))
    decreases v, 1
  {
    match v
    case Integer(i) =>
      if i >= 0 then Unsigned(Narrowest(i % U64), i % U64) else Negative(Narrowest((-1 - i) % U64), (-1 - i) % U64)
    case Bytes(b) => Str(false, Narrowest(|b|), b)
    case Text(s) =>
      Utf8.RoundTrip(s);
      Str(true, Narrowest(|Utf8.Encode(s)|), Utf8.Encode(s))
    case Bool(v) => Simple(if v then 21 else 20)
    case Null => Simple(22)
    case Tag(tag, inner) => Tagged(Narrowest(tag), tag, Canon(inner))
    case Array(items) => Arr(Narrowest(|items|), CanonAll(items))
    case Map(entries) => Dict(Narrowest(|entries|), CanonEntries(entries))
  }

  function CanonAll(items: seq<Value>): (r: seq<Item>)
    requires AllFit(items)
    ensures |r| == |items| && AllOk(r) && (Meanings(r) == items <==> AllInRange(items))
    decreases items, 0
  {
    if items == [] then [] else
      var first, rest := Canon(items[0]), CanonAll(items[1..]);
      assert Meanings([first] + rest)[1..] == Meanings(rest);
      [first] + rest
  }

  function CanonEntries(entries: seq<Entry>): (r: seq<Item>)
    requires EntriesFit(entries)
    ensures |r| == 2 * |entries| && AllOk(r) && (PairUp(Meanings(r)) == entries <==> EntriesInRange(entries))
    decreases entries, 0
  {
    if entries == [] then []
    else
      var e, rest := CanonEntry(entries[0]), CanonEntries(entries[1..]);
      PairAppend(e[0], e[1], rest);
      assert PairUp(Meanings(e + rest))[0] == Entry(Meaning(e[0]), Meaning(e[1]));
      assert PairUp(Meanings(e + rest))[1..] == PairUp(Meanings(rest));
      e + rest
  }

  function CanonEntry(e: Entry): (r: seq<Item>)
    requires EntryFits(e)
    ensures |r| == 2 && Ok(r[0]) && Ok(r[1])
    ensures Entry(Meaning(r[0]), Meaning(r[1])) == e <==> EntryInRange(e)
    decreases e, 2
  {
    [Canon(e.key), Canon(e.val)]
  }

  lemma PairAppend(k: Item, v: Item, rest: seq<Item>)
    ensures AllOk([k, v] + rest) <==> Ok(k) && Ok(v) && AllOk(rest)
    ensures PairUp(Meanings([k, v] + rest)) == [Entry(Meaning(k), Meaning(v))] + PairUp(Meanings(rest))
  {
    var all := [k, v] + rest;
    assert all[1..] == [v] + rest && all[1..][1..] == rest;
    assert Meanings(all)[2..] == Meanings(rest);
  }

  /** What the encoder writes. */
  function Encode(v: Value): seq<byte>
    requires Fits(v)
  {
    Render(Canon(v))
  }
}
