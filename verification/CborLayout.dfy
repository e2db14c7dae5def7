// What CBOR looks like byte by byte (RFC 8949 section 3): the initial bytes, the argument widths with the most
// significant byte first, what follows each head, and examples of Appendix A. Stated on the encoder and the decoder.

module CborLayout {
  import opened Bytes
  import opened BigEndian
  import opened Cbor
  import opened CborParse
  import opened CborRoundTrip
  import Utf8

  // ---------------------------------------------------------------- what the encoder writes

  /** Major type and argument, in the fewest bytes that carry it. */
  function Lead(major: nat, n: u64): (r: seq<byte>)
    requires major < 8
  {
    if n < 24 then [32 * major + n]
    else if n < 0x100 then [32 * major + 24, n]
    else if n < 0x1_0000 then [32 * major + 25, n / 0x100, n % 0x100]
    else if n < 0x1_0000_0000 then
      [32 * major + 26, n / 0x100_0000, n / 0x1_0000 % 0x100, n / 0x100 % 0x100, n % 0x100]
    else [32 * major + 27] + EightOf(n)
  }

  function EightOf(n: u64): seq<byte> {
    [n / 0x100_0000_0000_0000, n / 0x1_0000_0000_0000 % 0x100, n / 0x100_0000_0000 % 0x100, n / 0x1_0000_0000 % 0x100,
     n / 0x100_0000 % 0x100, n / 0x1_0000 % 0x100, n / 0x100 % 0x100, n % 0x100]
  }

  lemma Powers()
    ensures Pow256(0) == 1 && Pow256(1) == 0x100 && Pow256(2) == 0x1_0000 && Pow256(3) == 0x100_0000
    ensures Pow256(4) == 0x1_0000_0000 && Pow256(5) == 0x100_0000_0000 && Pow256(6) == 0x1_0000_0000_0000
    ensures Pow256(7) == 0x100_0000_0000_0000
  {
    Pow256Values();
    assert Pow256(5) == 256 * Pow256(4);
    assert Pow256(6) == 256 * Pow256(5);
    assert Pow256(7) == 256 * Pow256(6);
  }

  lemma ByteIs(n: nat, k: nat, i: nat, p: nat)
    requires i < k && Pow256(k - 1 - i) == p
    ensures p > 0 && ToBytes(n, k)[i] == n / p % 256
  {
    hide ToBytes;
    ByteAt(n, k, i);
  }

  lemma EightOfIs(n: u64, k: nat)
    requires k == 8
    ensures ToBytes(n, k) == EightOf(n)
  {
    hide ToBytes, Pow256;
    Powers();
    ByteIs(n, k, 0, 0x100_0000_0000_0000);
    ByteIs(n, k, 1, 0x1_0000_0000_0000);
    ByteIs(n, k, 2, 0x100_0000_0000);
    ByteIs(n, k, 3, 0x1_0000_0000);
    ByteIs(n, k, 4, 0x100_0000);
    ByteIs(n, k, 5, 0x1_0000);
    ByteIs(n, k, 6, 0x100);
    ByteIs(n, k, 7, 1);
  }

  lemma OneOf(n: u64, k: nat)
    requires k == 1 && n < 0x100
    ensures ToBytes(n, k) == [n]
  {
    hide ToBytes, Pow256;
    Powers();
    ByteIs(n, k, 0, 1);
  }

  lemma TwoOf(n: u64, k: nat)
    requires k == 2 && n < 0x1_0000
    ensures ToBytes(n, k) == [n / 0x100, n % 0x100]
  {
    hide ToBytes, Pow256;
    Powers();
    ByteIs(n, k, 0, 0x100);
    ByteIs(n, k, 1, 1);
  }

  lemma FourOf(n: u64, k: nat)
    requires k == 4 && n < 0x1_0000_0000
    ensures ToBytes(n, k) == [n / 0x100_0000, n / 0x1_0000 % 0x100, n / 0x100 % 0x100, n % 0x100]
  {
    hide ToBytes, Pow256;
    Powers();
    ByteIs(n, k, 0, 0x100_0000);
    ByteIs(n, k, 1, 0x1_0000);
    ByteIs(n, k, 2, 0x100);
    ByteIs(n, k, 3, 1);
  }

  lemma LeadIs(major: nat, n: u64)
    requires major < 8
    ensures Head(major, Narrowest(n), n) == Lead(major, n)
  {
    hide ToBytes, EightOf;
    if n < 24 {
      NoBytes(n);
    } else if n < 0x100 {
      OneOf(n, 1);
    } else if n < 0x1_0000 {
      TwoOf(n, 2);
    } else if n < 0x1_0000_0000 {
      FourOf(n, 4);
    } else {
      EightOfIs(n, 8);
    }
  }

  lemma NoBytes(n: nat)
    ensures ToBytes(n, 0) == []
  {
  }

  function EncodedAll(items: seq<Value>): seq<byte>
    requires AllFit(items)
  {
    if items == [] then [] else Encode(items[0]) + EncodedAll(items[1..])
  }

  /** Every key is followed by its value. */
  function EncodedPairs(entries: seq<Entry>): seq<byte>
    requires EntriesFit(entries)
  {
    if entries == [] then []
    else
      assert EntryFits(entries[0]);
      Encode(entries[0].key) + Encode(entries[0].val) + EncodedPairs(entries[1..])
  }

  lemma {:induction false} EncodedAllIs(items: seq<Value>)
    requires AllFit(items)
    ensures RenderAll(CanonAll(items)) == EncodedAll(items)
    decreases |items|
  {
    if items != [] {
      EncodedAllIs(items[1..]);
      RenderCons(Canon(items[0]), CanonAll(items[1..]));
    }
  }

  lemma {:induction false} EncodedPairsIs(entries: seq<Entry>)
    requires EntriesFit(entries)
    ensures RenderAll(CanonEntries(entries)) == EncodedPairs(entries)
    decreases |entries|
  {
    if entries != [] {
      var e := entries[0];
      EncodedPairsIs(entries[1..]);
      RenderTwo(Canon(e.key), Canon(e.val), CanonEntries(entries[1..]));
      assert CanonEntry(e) == [Canon(e.key), Canon(e.val)];
      SeqAssoc(Encode(e.key), Encode(e.val), EncodedPairs(entries[1..]));
    }
  }

  lemma ScalarAs(v: Value)
    requires v.Integer? || v.Bool? || v.Null?
    ensures v.Integer? ==> Encode(v) == if v.i >= 0 then Lead(0, v.i % U64) else Lead(1, (-1 - v.i) % U64)
    ensures v.Bool? ==> Encode(v) == if v.v then [0xF5] else [0xF4]
    ensures v.Null? ==> Encode(v) == [0xF6]
  {
    hide Head, Lead;
    if v.Integer? { LeadIs(if v.i >= 0 then 0 else 1, if v.i >= 0 then v.i % U64 else (-1 - v.i) % U64); }
  }

  lemma StringAs(text: bool, payload: seq<byte>)
    requires |payload| < U64 && (text ==> Utf8.Decode(payload).Some?)
    ensures Render(Str(text, Narrowest(|payload|), payload)) == Lead(if text then 3 else 2, |payload|) + payload
  {
    hide Head, Lead, Narrowest, Utf8.Decode;
    LeadIs(StrMajor(text), |payload|);
  }

  lemma RenderedCount(dict: bool, w: Width, items: seq<Item>)
    requires Ok(if dict then Dict(w, items) else Arr(w, items))
    ensures AllOk(items) && (if dict then |items| / 2 else |items|) < ArgLimit(w)
    ensures dict ==> Render(Dict(w, items)) == Head(5, w, |items| / 2) + RenderAll(items)
    ensures !dict ==> Render(Arr(w, items)) == Head(4, w, |items|) + RenderAll(items)
  {
    hide Head, RenderAll;
  }

  lemma ArrayTree(items: seq<Value>)
    requires Fits(Array(items))
    ensures Canon(Array(items)) == Arr(Narrowest(|items|), CanonAll(items))
  {
    hide CanonAll, Narrowest, Meaning, InRange, Ok;
  }

  lemma ArrayAs(items: seq<Value>)
    requires Fits(Array(items))
    ensures Encode(Array(items)) == Lead(4, |items|) + EncodedAll(items)
  {
    hide Head, Lead, Render, RenderAll, Canon, CanonAll, Meaning, InRange, EncodedAll, Narrowest, Ok, AllOk;
    ArrayTree(items);
    RenderedCount(false, Narrowest(|items|), CanonAll(items));
    LeadIs(4, |items|);
    EncodedAllIs(items);
  }

  lemma MapTree(entries: seq<Entry>)
    requires Fits(Map(entries))
    ensures Canon(Map(entries)) == Dict(Narrowest(|entries|), CanonEntries(entries))
  {
    hide CanonEntries, Narrowest, Meaning, InRange, Ok;
  }

  lemma MapAs(entries: seq<Entry>)
    requires Fits(Map(entries))
    ensures Encode(Map(entries)) == Lead(5, |entries|) + EncodedPairs(entries)
  {
    hide Head, Lead, Render, RenderAll, Canon, CanonEntries, Meaning, InRange, EncodedPairs, Narrowest, Ok, AllOk;
    MapTree(entries);
    RenderedCount(true, Narrowest(|entries|), CanonEntries(entries));
    LeadIs(5, |entries|);
    EncodedPairsIs(entries);
  }

  lemma TagAs(tag: u64, inner: Value)
    requires Fits(inner)
    ensures Encode(Tag(tag, inner)) == Lead(6, tag) + Encode(inner)
  {
    hide Head, Lead, Narrowest;
    LeadIs(6, tag);
  }

  /** Major types 0 to 7 with their arguments, and what stands behind them. */
  lemma EncodedAs(v: Value)
    requires Fits(v)
    ensures match v
      case Integer(i) => Encode(v) == if i >= 0 then Lead(0, i % U64) else Lead(1, (-1 - i) % U64)
      case Bytes(b) => Encode(v) == Lead(2, |b|) + b
      case Text(s) => Encode(v) == Lead(3, |Utf8.Encode(s)|) + Utf8.Encode(s)
      case Array(items) => Encode(v) == Lead(4, |items|) + EncodedAll(items)
      case Map(entries) => Encode(v) == Lead(5, |entries|) + EncodedPairs(entries)
      case Tag(tag, inner) => Encode(v) == Lead(6, tag) + Encode(inner)
      case Bool(b) => Encode(v) == if b then [0xF5] else [0xF4]
      case Null => Encode(v) == [0xF6]
  {
    hide Render, Lead, EncodedAll, EncodedPairs;
    match v
    case Bytes(b) => StringAs(false, b);
    case Text(s) =>
      Utf8.RoundTrip(s);
      StringAs(true, Utf8.Encode(s));
    case Array(items) => ArrayAs(items);
    case Map(entries) => MapAs(entries);
    case Tag(tag, inner) => TagAs(tag, inner);
    case _ => ScalarAs(v);
  }

  // ---------------------------------------------------------------- what the decoder reads

  /** The argument of an initial byte with low bits `info`, and where it ends. */
  function Argument(bytes: seq<byte>, at: nat, info: nat): Read<nat> {
    if info < 24 then Got(info, at)
    else if info == 24 && at + 1 <= |bytes| then Got(bytes[at], at + 1)
    else if info == 25 && at + 2 <= |bytes| then Got(TwoAt(bytes, at), at + 2)
    else if info == 26 && at + 4 <= |bytes| then Got(FourAt(bytes, at), at + 4)
    else if info == 27 && at + 8 <= |bytes| then Got(0x1_0000_0000 * FourAt(bytes, at) + FourAt(bytes, at + 4), at + 8)
    else Bad
  }

  function TwoAt(bytes: seq<byte>, at: nat): nat
    requires at + 2 <= |bytes|
  {
    0x100 * (bytes[at] as nat) + bytes[at + 1]
  }

  function FourAt(bytes: seq<byte>, at: nat): nat
    requires at + 4 <= |bytes|
  {
    0x1_0000 * TwoAt(bytes, at) + TwoAt(bytes, at + 2)
  }

  lemma FourAtIs(bytes: seq<byte>, at: nat, n: nat)
    requires at + n <= |bytes| && n in {1, 2, 4}
    ensures n == 1 ==> FromBytes(bytes[at..at + n]) == bytes[at]
    ensures n == 2 ==> FromBytes(bytes[at..at + n]) == TwoAt(bytes, at)
    ensures n == 4 ==> FromBytes(bytes[at..at + n]) == FourAt(bytes, at)
  {
    hide FromBytes;
    if n == 1 {
      FewBytes(bytes[at], 0, 0, 0);
      assert bytes[at..at + n] == [bytes[at]];
    } else if n == 2 {
      FewBytes(bytes[at], bytes[at + 1], 0, 0);
      assert bytes[at..at + n] == [bytes[at], bytes[at + 1]];
    } else {
      FewBytes(bytes[at], bytes[at + 1], bytes[at + 2], bytes[at + 3]);
      assert bytes[at..at + n] == [bytes[at], bytes[at + 1], bytes[at + 2], bytes[at + 3]];
    }
  }

  lemma EightAtIs(bytes: seq<byte>, at: nat)
    requires at + 8 <= |bytes|
    ensures FromBytes(bytes[at..at + 8]) == 0x1_0000_0000 * FourAt(bytes, at) + FourAt(bytes, at + 4)
  {
    hide FromBytes;
    FourAtIs(bytes, at, 4);
    EightBytes(bytes[at..at + 4], bytes[at + 4], bytes[at + 5], bytes[at + 6], bytes[at + 7]);
    assert bytes[at..at + 8] == bytes[at..at + 4] + [bytes[at + 4], bytes[at + 5], bytes[at + 6], bytes[at + 7]];
  }

  /** The most significant byte comes first, and 24 to 27 announce one, two, four and eight bytes. */
  lemma ArgumentIs(bytes: seq<byte>, at: nat, info: nat)
    requires at <= |bytes|
    ensures match Argument(bytes, at, info)
      case Bad => ParseArg(bytes, at, info) == Bad
      case Got(n, end) =>
        && ParseArg(bytes, at, info).Got? && ParseArg(bytes, at, info).value.n == n
        && ParseArg(bytes, at, info).end == end
  {
    hide FromBytes, FourAt;
    if info == 24 && at + 1 <= |bytes| { FourAtIs(bytes, at, 1); }
    if info == 25 && at + 2 <= |bytes| { FourAtIs(bytes, at, 2); }
    if info == 26 && at + 4 <= |bytes| { FourAtIs(bytes, at, 4); }
    if info == 27 && at + 8 <= |bytes| { EightAtIs(bytes, at); }
  }

  lemma HeadedAt(bytes: seq<byte>, pos: nat, major: nat)
    requires pos < |bytes| && major == bytes[pos] / 32 && major in {0, 1, 4, 5, 6}
    requires bytes[pos] % 32 != 31 || major in {0, 1, 6}
    ensures match ParseArg(bytes, pos + 1, bytes[pos] % 32)
      case Bad => ParseItem(bytes, pos) == Bad
      case Got(arg, at) => ParseItem(bytes, pos) == ParseHeaded(bytes, at, major, arg)
  {
    hide ParseArg, ParseHeaded, ParseOpen, ParseString;
  }

  /** 0x00 to 0x1B and 0x20 to 0x3B begin the integers n and -1 - n; 0x1C to 0x1F and 0x3C to 0x3F begin nothing. */
  lemma IntegersRead(bytes: seq<byte>, pos: nat)
    requires pos < |bytes| && bytes[pos] < 0x40
    ensures match Argument(bytes, pos + 1, bytes[pos] % 32)
      case Bad => Decode(bytes, pos) == Bad
      case Got(n, end) => Decode(bytes, pos) == Got(Integer(if bytes[pos] < 0x20 then n else -1 - n), end)
  {
    hide ParseArg, Argument, ParseItem;
    ArgumentIs(bytes, pos + 1, bytes[pos] % 32);
    HeadedAt(bytes, pos, bytes[pos] / 32);
  }

  /** 0xF4 to 0xF7 are false, true, null and undefined; no other byte from 0xE0 on begins an item. */
  lemma SimplesRead(bytes: seq<byte>, pos: nat)
    requires pos < |bytes| && bytes[pos] >= 0xE0
    ensures Decode(bytes, pos) ==
      if bytes[pos] == 0xF4 then Got(Bool(false), pos + 1)
      else if bytes[pos] == 0xF5 then Got(Bool(true), pos + 1)
      else if bytes[pos] == 0xF6 || bytes[pos] == 0xF7 then Got(Null, pos + 1)
      else Bad
  {
  }

  /** 0xC0 to 0xDB begin a tag and the item it is put on. */
  lemma TagsRead(bytes: seq<byte>, pos: nat)
    requires pos < |bytes| && 0xC0 <= bytes[pos] < 0xE0
    ensures match Argument(bytes, pos + 1, bytes[pos] % 32)
      case Bad => Decode(bytes, pos) == Bad
      case Got(n, at) =>
        match Decode(bytes, at)
        case Bad => Decode(bytes, pos) == Bad
        case Got(inner, end) => n < U64 && Decode(bytes, pos) == Got(Tag(n, inner), end)
  {
    hide ParseArg, Argument, ParseItem;
    ArgumentIs(bytes, pos + 1, bytes[pos] % 32);
    HeadedAt(bytes, pos, bytes[pos] / 32);
  }

  /** The payload of a string whose initial byte is 32 * major + info: 31 announces chunks up to a 0xFF. */
  function Payload(bytes: seq<byte>, at: nat, major: nat, info: nat): Read<seq<byte>> {
    if info == 31 then Chunks(bytes, at, major)
    else
      match Argument(bytes, at, info)
      case Bad => Bad
      case Got(n, from) => if from + n <= |bytes| then Got(bytes[from..from + n], from + n) else Bad
  }

  function Chunks(bytes: seq<byte>, at: nat, major: nat): Read<seq<byte>>
    decreases |bytes| - at
  {
    if at >= |bytes| then Bad
    else if bytes[at] == 0xFF then Got([], at + 1)
    else if bytes[at] / 32 != major || bytes[at] % 32 == 31 then Bad
    else
      match Argument(bytes, at + 1, bytes[at] % 32)
      case Bad => Bad
      case Got(n, from) =>
        if from + n > |bytes| then Bad
        else
          match Chunks(bytes, from + n, major)
          case Bad => Bad
          case Got(rest, end) => Got(bytes[from..from + n] + rest, end)
  }

  lemma {:induction false} ChunksIs(bytes: seq<byte>, at: nat, text: bool)
    ensures match ParseChunks(bytes, at, text)
      case Bad => Chunks(bytes, at, if text then 3 else 2) == Bad
      case Got(chunks, end) => Chunks(bytes, at, if text then 3 else 2) == Got(ChunkBytes(chunks), end)
    decreases |bytes| - at
  {
    hide ParseArg, Argument;
    if at < |bytes| && bytes[at] != 0xFF && bytes[at] / 32 == StrMajor(text) {
      ArgumentIs(bytes, at + 1, bytes[at] % 32);
      NoArgument(bytes, at + 1);
      match ParseArg(bytes, at + 1, bytes[at] % 32)
      case Bad =>
      case Got(arg, from) =>
        if from + arg.n <= |bytes| {
          ChunksIs(bytes, from + arg.n, text);
          match ParseChunks(bytes, from + arg.n, text)
          case Bad =>
          case Got(rest, end) => assert ([Chunk(arg.w, bytes[from..from + arg.n])] + rest)[1..] == rest;
        }
    }
  }

  lemma NoArgument(bytes: seq<byte>, at: nat)
    ensures Argument(bytes, at, 31) == Bad
  {
  }

  /** 0x40 to 0x5B and 0x5F begin byte strings, 0x60 to 0x7B and 0x7F text, which has to be UTF-8. */
  lemma StringsRead(bytes: seq<byte>, pos: nat)
    requires pos < |bytes| && 0x40 <= bytes[pos] < 0x80
    ensures match Payload(bytes, pos + 1, bytes[pos] / 32, bytes[pos] % 32)
      case Bad => Decode(bytes, pos) == Bad
      case Got(b, end) =>
        if bytes[pos] < 0x60 then Decode(bytes, pos) == Got(Bytes(b), end)
        else
          match Utf8.Decode(b)
          case None => Decode(bytes, pos) == Bad
          case Some(s) => Decode(bytes, pos) == Got(Text(s), end)
  {
    hide ParseArg, Argument;
    if bytes[pos] % 32 == 31 {
      ChunksIs(bytes, pos + 1, bytes[pos] >= 0x60);
    } else {
      ArgumentIs(bytes, pos + 1, bytes[pos] % 32);
    }
  }

  /** `n` items one after the other. */
  function Many(bytes: seq<byte>, at: nat, n: nat): Read<seq<Value>>
    decreases n
  {
    if n == 0 then Got([], at)
    else match Decode(bytes, at) case Bad => Bad case Got(v, from) => InFront(v, Many(bytes, from, n - 1))
  }

  /** Items up to a 0xFF. */
  function Until(bytes: seq<byte>, at: nat): Read<seq<Value>>
    decreases |bytes| - at
  {
    if at >= |bytes| then Bad
    else if bytes[at] == 0xFF then Got([], at + 1)
    else match Decode(bytes, at) case Bad => Bad case Got(v, from) => InFront(v, Until(bytes, from))
  }

  function InFront(v: Value, rest: Read<seq<Value>>): Read<seq<Value>> {
    match rest case Bad => Bad case Got(vs, end) => Got([v] + vs, end)
  }

  lemma {:induction false} ManyIs(bytes: seq<byte>, at: nat, n: nat)
    requires at <= |bytes|
    ensures match ParseItems(bytes, at, n)
      case Bad => Many(bytes, at, n) == Bad
      case Got(items, end) => Many(bytes, at, n) == Got(Meanings(items), end)
    decreases n
  {
    hide ParseItem;
    if n > 0 {
      match ParseItem(bytes, at)
      case Bad =>
      case Got(first, from) =>
        ManyIs(bytes, from, n - 1);
        match ParseItems(bytes, from, n - 1)
        case Bad =>
        case Got(rest, end) => assert ([first] + rest)[1..] == rest;
    }
  }

  lemma {:induction false} UntilIs(bytes: seq<byte>, at: nat)
    ensures match ParseOpen(bytes, at)
      case Bad => Until(bytes, at) == Bad
      case Got(items, end) => Until(bytes, at) == Got(Meanings(items), end)
    decreases |bytes| - at
  {
    hide ParseItem;
    if at < |bytes| && bytes[at] != 0xFF {
      match ParseItem(bytes, at)
      case Bad =>
      case Got(first, from) =>
        UntilIs(bytes, from);
        match ParseOpen(bytes, from)
        case Bad =>
        case Got(rest, end) => assert ([first] + rest)[1..] == rest;
    }
  }

  /** What stands behind the initial byte of an array or map: one item an element or two, or 31 and all up to a 0xFF. */
  function Elements(bytes: seq<byte>, at: nat, info: nat, pairs: bool): Read<seq<Value>> {
    if info == 31 then Until(bytes, at)
    else match Argument(bytes, at, info) case Bad => Bad case Got(n, from) => Many(bytes, from, if pairs then 2 * n else n)
  }

  /** 0x80 to 0x9B and 0x9F begin arrays. */
  lemma ArraysRead(bytes: seq<byte>, pos: nat)
    requires pos < |bytes| && 0x80 <= bytes[pos] < 0xA0
    ensures match Elements(bytes, pos + 1, bytes[pos] % 32, false)
      case Bad => Decode(bytes, pos) == Bad
      case Got(vs, end) => Decode(bytes, pos) == Got(Array(vs), end)
  {
    hide ParseArg, Argument, ParseItems, ParseOpen, Many, Until;
    if bytes[pos] % 32 == 31 {
      UntilIs(bytes, pos + 1);
    } else {
      ArgumentIs(bytes, pos + 1, bytes[pos] % 32);
      HeadedAt(bytes, pos, 4);
      match ParseArg(bytes, pos + 1, bytes[pos] % 32)
      case Bad =>
      case Got(arg, at) => ManyIs(bytes, at, arg.n);
    }
  }

  /** Every entry is an item and the one behind it. */
  predicate Alternate(entries: seq<Entry>, vs: seq<Value>) {
    |vs| == 2 * |entries| && forall i :: 0 <= i < |entries| ==> entries[i] == Entry(vs[2 * i], vs[2 * i + 1])
  }

  lemma {:induction false} PairUpAlternates(vs: seq<Value>)
    requires |vs| % 2 == 0
    ensures Alternate(PairUp(vs), vs)
    decreases |vs|
  {
    if vs != [] {
      PairUpAlternates(vs[2..]);
      forall i | 0 <= i < |PairUp(vs)| ensures PairUp(vs)[i] == Entry(vs[2 * i], vs[2 * i + 1]) {
        if i > 0 { assert PairUp(vs)[i] == PairUp(vs[2..])[i - 1]; }
      }
    }
  }

  /** 0xA0 to 0xBB and 0xBF begin maps, of keys each in front of its value; an odd count of items is no map. */
  lemma MapsRead(bytes: seq<byte>, pos: nat)
    requires pos < |bytes| && 0xA0 <= bytes[pos] < 0xC0
    ensures match Elements(bytes, pos + 1, bytes[pos] % 32, true)
      case Bad => Decode(bytes, pos) == Bad
      case Got(vs, end) =>
        if |vs| % 2 != 0 then Decode(bytes, pos) == Bad
        else exists es :: Alternate(es, vs) && Decode(bytes, pos) == Got(Map(es), end)
  {
    hide ParseArg, Argument, ParseItems, ParseOpen, Many, Until, PairUp, Alternate;
    if bytes[pos] % 32 == 31 {
      UntilIs(bytes, pos + 1);
      match ParseOpen(bytes, pos + 1)
      case Bad =>
      case Got(items, _) => if |items| % 2 == 0 { PairUpAlternates(Meanings(items)); }
    } else {
      ArgumentIs(bytes, pos + 1, bytes[pos] % 32);
      HeadedAt(bytes, pos, 5);
      match ParseArg(bytes, pos + 1, bytes[pos] % 32)
      case Bad =>
      case Got(arg, at) =>
        ManyIs(bytes, at, 2 * arg.n);
        match ParseItems(bytes, at, 2 * arg.n)
        case Bad =>
        case Got(items, _) => PairUpAlternates(Meanings(items));
    }
  }
}
