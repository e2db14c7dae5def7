// The CBOR reader and writer as the source runs them: a shared cursor over the input, a shared output buffer,
// loops that push. Each is proved against the grammar's parser or its canonical rendering.

module CborCodec {
  import opened Bytes
  import opened BigEndian
  import opened Cbor
  import opened CborParse
  import opened CborRoundTrip
  import Utf8

  /** The input position that every reader advances. */
  class Cursor {
    var pos: nat

    constructor (start: nat)
      ensures pos == start
    {
      pos := start;
    }
  }

  /** The byte vector that every writer appends to. */
  class Output {
    var data: seq<byte>

    constructor ()
      ensures data == []
    {
      data := [];
    }

    method Push(b: byte)
      modifies this
      ensures data == old(data) + [b]
    {
      data := data + [b];
    }

    method Extend(bs: seq<byte>)
      modifies this
      ensures data == old(data) + bs
    {
      data := data + bs;
    }
  }

  /** A reader's result and final cursor are what the parser says. */
  predicate Agrees<T(==)>(spec: Read<T>, r: Option<T>, pos: nat) {
    match spec case Bad => r == None case Got(v, end) => r == Some(v) && pos == end
  }

  /** Elements already read, in front of what is still to be read. */
  function After<T>(front: seq<T>, rest: Read<seq<T>>): Read<seq<T>> {
    match rest case Bad => Bad case Got(items, end) => Got(front + items, end)
  }

  lemma AfterOne<T>(front: seq<T>, x: T, rest: Read<seq<T>>)
    ensures After(front, After([x], rest)) == After(front + [x], rest)
  {
    if rest.Got? { assert front + ([x] + rest.value) == front + [x] + rest.value; }
  }

  lemma AfterTwo<T>(front: seq<T>, x: T, y: T, rest: Read<seq<T>>)
    ensures After(front, After([x], After([y], rest))) == After(front + [x] + [y], rest)
  {
    AfterOne(front, x, After([y], rest));
    AfterOne(front + [x], y, rest);
  }

  lemma AfterNone<T>(items: seq<T>, rest: Read<seq<T>>, end: nat)
    ensures After([], rest) == rest && After(items, Got([], end)) == Got(items, end)
  {
    if rest.Got? { assert [] + rest.value == rest.value; }
    assert items + [] == items;
  }

  // ---------------------------------------------------------------- reader

  method ReadHeadByte(bytes: seq<byte>, cur: Cursor) returns (r: Option<(nat, nat)>)
    modifies cur
    ensures r.Some? <==> old(cur.pos) < |bytes|
    ensures r.Some? ==>
      r.value == (bytes[old(cur.pos)] / 32, bytes[old(cur.pos)] % 32) && cur.pos == old(cur.pos) + 1
  {
    if cur.pos >= |bytes| { return None; }
    var b := bytes[cur.pos];
    cur.pos := cur.pos + 1;
    return Some((b / 32, b % 32));
  }

  method ReadBytes(bytes: seq<byte>, cur: Cursor, n: nat) returns (r: Option<seq<byte>>)
    modifies cur
    ensures r.Some? <==> old(cur.pos) + n <= |bytes|
    ensures r.Some? ==> r.value == bytes[old(cur.pos)..old(cur.pos) + n] && cur.pos == old(cur.pos) + n
  {
    var end := cur.pos + n;
    if end > |bytes| { return None; }
    r := Some(bytes[cur.pos..end]);
    cur.pos := end;
  }

  method ReadArg(bytes: seq<byte>, cur: Cursor, info: nat)
    returns (r: Option<u64>, ghost width: Width)
    requires cur.pos <= |bytes|
    modifies cur
    ensures match ParseArg(bytes, old(cur.pos), info)
      case Bad => r == None
      case Got(arg, end) => r == Some(arg.n) && width == arg.w && cur.pos == end
  {
    width := Direct;
    if info <= 23 { return Some(info), Direct; }
    var size := 0;
    if info == 24 {
      size, width := 1, W1;
    } else if info == 25 {
      size, width := 2, W2;
    } else if info == 26 {
      size, width := 4, W4;
    } else if info == 27 {
      size, width := 8, W8;
    } else {
      return None, Direct;
    }
    var raw := ReadBytes(bytes, cur, size);
    if raw.None? { return None, width; }
    ToFromBytes(raw.value);
    LimitIsPower(width);
    return Some(FromBytes(raw.value)), width;
  }

  method ReadRaw(bytes: seq<byte>, cur: Cursor, len: u64) returns (r: Option<seq<byte>>)
    modifies cur
    ensures r.Some? <==> old(cur.pos) + len <= |bytes|
    ensures r.Some? ==> r.value == bytes[old(cur.pos)..old(cur.pos) + len] && cur.pos == old(cur.pos) + len
  {
    r := ReadBytes(bytes, cur, len);
  }

  /** The payload of a string in either form. */
  function StringPayload(bytes: seq<byte>, pos: nat, info: nat, text: bool): Read<seq<byte>>
    requires pos <= |bytes|
  {
    if info != 31 then
      match ParseArg(bytes, pos, info)
      case Bad => Bad
      case Got(arg, at) => if at + arg.n > |bytes| then Bad else Got(bytes[at..at + arg.n], at + arg.n)
    else
      match ParseChunks(bytes, pos, text)
      case Bad => Bad
      case Got(chunks, end) => Got(ChunkBytes(chunks), end)
  }

  lemma {:induction false} ChunkBytesAppend(chunks: seq<Chunk>, c: Chunk)
    ensures ChunkBytes(chunks + [c]) == ChunkBytes(chunks) + c.payload
    decreases |chunks|
  {
    if chunks == [] {
      assert [c][1..] == [];
    } else {
      assert (chunks + [c])[1..] == chunks[1..] + [c];
      ChunkBytesAppend(chunks[1..], c);
      SeqAssoc(chunks[0].payload, ChunkBytes(chunks[1..]), c.payload);
    }
  }

  method ReadStringBytes(bytes: seq<byte>, cur: Cursor, info: nat, text: bool) returns (r: Option<seq<byte>>)
    requires cur.pos <= |bytes|
    modifies cur
    ensures Agrees(StringPayload(bytes, old(cur.pos), info, text), r, cur.pos)
  {
    if info != 31 {
      var len, w := ReadArg(bytes, cur, info);
      if len.None? { return None; }
      r := ReadRaw(bytes, cur, len.value);
      return;
    }
    var out := [];
    ghost var chunks, start := [], cur.pos;
    AfterNone<Chunk>([], ParseChunks(bytes, start, text), 0);
    while true
      invariant cur.pos <= |bytes| && out == ChunkBytes(chunks)
      invariant ParseChunks(bytes, start, text) == After(chunks, ParseChunks(bytes, cur.pos, text))
      decreases |bytes| - cur.pos
    {
      if cur.pos >= |bytes| { return None; }
      if bytes[cur.pos] == BREAK {
        cur.pos := cur.pos + 1;
        AfterNone(chunks, Bad, cur.pos);
        return Some(out);
      }
      var raw, c := ReadChunk(bytes, cur, text);
      if raw.None? { return None; }
      AfterOne(chunks, c, ParseChunks(bytes, cur.pos, text));
      ChunkBytesAppend(chunks, c);
      out, chunks := out + raw.value, chunks + [c];
    }
  }

  /** One definite-length chunk of an indefinite-length string. */
  method ReadChunk(bytes: seq<byte>, cur: Cursor, text: bool) returns (raw: Option<seq<byte>>, ghost c: Chunk)
    requires cur.pos < |bytes| && bytes[cur.pos] != BREAK
    modifies cur
    ensures raw.None? ==> ParseChunks(bytes, old(cur.pos), text) == Bad
    ensures raw.Some? ==> old(cur.pos) < cur.pos <= |bytes| && c.payload == raw.value
    ensures raw.Some? ==> ParseChunks(bytes, old(cur.pos), text) == After([c], ParseChunks(bytes, cur.pos, text))
  {
    c := Chunk(Direct, []);
    var head := ReadHeadByte(bytes, cur);
    if head.None? || head.value.0 != StrMajor(text) || head.value.1 == 31 { return None, c; }
    var len, w := ReadArg(bytes, cur, head.value.1);
    if len.None? { return None, c; }
    raw := ReadRaw(bytes, cur, len.value);
    if raw.Some? { c := Chunk(w, raw.value); }
  }

  method ReadSimple(info: nat) returns (r: Option<Value>)
    ensures r == if 20 <= info <= 23 then Some(Meaning(Simple(info))) else None
  {
    if info == 20 { return Some(Bool(false)); }
    if info == 21 { return Some(Bool(true)); }
    if info == 22 { return Some(Null); }
    if info == 23 { return Some(Null); }
    return None;
  }

  lemma {:induction false} MeaningsAppend(items: seq<Item>, it: Item)
    ensures Meanings(items + [it]) == Meanings(items) + [Meaning(it)]
    decreases |items|
  {
    if items == [] {
      assert Meanings([it]) == [Meaning(it)] + Meanings([it][1..]);
    } else {
      assert (items + [it])[1..] == items[1..] + [it];
      MeaningsAppend(items[1..], it);
    }
  }

  lemma {:induction false} PairUpAppend(flat: seq<Value>, k: Value, v: Value)
    requires |flat| % 2 == 0
    ensures PairUp(flat + [k, v]) == PairUp(flat) + [Entry(k, v)]
    decreases |flat|
  {
    if flat == [] {
      assert PairUp([k, v]) == [Entry(k, v)] + PairUp([k, v][2..]);
    } else {
      assert (flat + [k, v])[2..] == flat[2..] + [k, v];
      PairUpAppend(flat[2..], k, v);
    }
  }

  function ReadValues(r: Read<seq<Item>>): Read<seq<Value>> {
    match r case Bad => Bad case Got(items, end) => Got(Meanings(items), end)
  }

  function ReadEntries(r: Read<seq<Item>>): Read<seq<Entry>> {
    match r
    case Bad => Bad
    case Got(items, end) => if |items| % 2 == 0 then Got(PairUp(Meanings(items)), end) else Bad
  }

  /** The elements of an array whose head byte has low bits `info`. */
  function ArrayBody(bytes: seq<byte>, pos: nat, info: nat, perElement: nat): Read<seq<Item>>
    requires pos <= |bytes|
  {
    if info == 31 then ParseOpen(bytes, pos)
    else
      match ParseArg(bytes, pos, info)
      case Bad => Bad
      case Got(arg, at) => ParseItems(bytes, at, perElement * arg.n)
  }

  method ReadArray(bytes: seq<byte>, cur: Cursor, info: nat) returns (r: Option<seq<Value>>)
    requires cur.pos <= |bytes|
    modifies cur
    ensures Agrees(ReadValues(ArrayBody(bytes, old(cur.pos), info, 1)), r, cur.pos)
    decreases |bytes| - cur.pos, 5
  {
    hide Wide, ParseArg;
    var out := [];
    ghost var items, start := [], cur.pos;
    if info == 31 {
      AfterNone<Item>([], ParseOpen(bytes, start), 0);
      while true
        invariant start <= cur.pos <= |bytes| && out == Meanings(items)
        invariant ParseOpen(bytes, start) == After(items, ParseOpen(bytes, cur.pos))
        decreases |bytes| - cur.pos
      {
        if cur.pos >= |bytes| { return None; }
        if bytes[cur.pos] == BREAK { break; }
        ghost var at, first := cur.pos, ParseItem(bytes, cur.pos);
        var v := FromSlice(bytes, cur);
        if v.None? { return None; }
        AfterOne(items, first.value, ParseOpen(bytes, cur.pos));
        MeaningsAppend(items, first.value);
        out, items := out + [v.value], items + [first.value];
      }
      cur.pos := cur.pos + 1;
      AfterNone(items, Bad, cur.pos);
      return Some(out);
    }
    var count, w := ReadArg(bytes, cur, info);
    if count.None? { return None; }
    start := cur.pos;
    AfterNone<Item>([], ParseItems(bytes, start, count.value), 0);
    for i := 0 to count.value
      invariant start <= cur.pos <= |bytes| && out == Meanings(items)
      invariant ParseItems(bytes, start, count.value) == After(items, ParseItems(bytes, cur.pos, count.value - i))
    {
      ghost var first := ParseItem(bytes, cur.pos);
      var v := FromSlice(bytes, cur);
      if v.None? { return None; }
      AfterOne(items, first.value, ParseItems(bytes, cur.pos, count.value - i - 1));
      MeaningsAppend(items, first.value);
      out, items := out + [v.value], items + [first.value];
    }
    AfterNone(items, Bad, cur.pos);
    return Some(out);
  }

  method ReadMap(bytes: seq<byte>, cur: Cursor, info: nat) returns (r: Option<seq<Entry>>)
    requires cur.pos <= |bytes|
    modifies cur
    ensures Agrees(ReadEntries(ArrayBody(bytes, old(cur.pos), info, 2)), r, cur.pos)
    decreases |bytes| - cur.pos, 7
  {
    if info == 31 {
      r := ReadOpenMap(bytes, cur);
    } else {
      var count, w := ReadArg(bytes, cur, info);
      if count.None? { return None; }
      r := ReadCountedMap(bytes, cur, count.value);
    }
  }

  method ReadOpenMap(bytes: seq<byte>, cur: Cursor) returns (r: Option<seq<Entry>>)
    requires cur.pos <= |bytes|
    modifies cur
    ensures Agrees(ReadEntries(ParseOpen(bytes, old(cur.pos))), r, cur.pos)
    decreases |bytes| - cur.pos, 6
  {
    var out := [];
    ghost var items, start := [], cur.pos;
    AfterNone<Item>([], ParseOpen(bytes, start), 0);
    while true
      invariant start <= cur.pos <= |bytes| && |items| % 2 == 0 && out == PairUp(Meanings(items))
      invariant ParseOpen(bytes, start) == After(items, ParseOpen(bytes, cur.pos))
      decreases |bytes| - cur.pos
    {
      if cur.pos >= |bytes| { return None; }
      if bytes[cur.pos] == BREAK { break; }
      OpenEntry(bytes, cur.pos, items);
      var e, key, val := ReadEntry(bytes, cur);
      if e.None? { return None; }
      EntryAppend(items, key, val);
      out, items := out + [e.value], items + [key] + [val];
    }
    cur.pos := cur.pos + 1;
    AfterNone(items, Bad, cur.pos);
    return Some(out);
  }

  method ReadCountedMap(bytes: seq<byte>, cur: Cursor, count: nat) returns (r: Option<seq<Entry>>)
    requires cur.pos <= |bytes|
    modifies cur
    ensures Agrees(ReadEntries(ParseItems(bytes, old(cur.pos), 2 * count)), r, cur.pos)
    decreases |bytes| - cur.pos, 6
  {
    var out := [];
    ghost var items, start, left := [], cur.pos, 2 * count;
    ghost var all := ParseItems(bytes, start, left);
    AfterNone<Item>([], all, 0);
    for i := 0 to count
      invariant start <= cur.pos <= |bytes| && |items| % 2 == 0 && out == PairUp(Meanings(items))
      invariant left == 2 * (count - i) && all == After(items, ParseItems(bytes, cur.pos, left))
    {
      CountedEntry(bytes, cur.pos, items, left);
      var e, key, val := ReadEntry(bytes, cur);
      if e.None? { return None; }
      EntryAppend(items, key, val);
      out, items, left := out + [e.value], items + [key] + [val], left - 2;
    }
    AfterNone(items, Bad, cur.pos);
    return Some(out);
  }

  /** A key and the value behind it. */
  method ReadEntry(bytes: seq<byte>, cur: Cursor) returns (e: Option<Entry>, ghost key: Item, ghost val: Item)
    requires cur.pos <= |bytes|
    modifies cur
    ensures e.None? ==> var k := ParseItem(bytes, old(cur.pos)); k == Bad || ParseItem(bytes, k.end) == Bad
    ensures e.Some? ==> old(cur.pos) < cur.pos <= |bytes| && e.value == Entry(Meaning(key), Meaning(val))
    ensures e.Some? ==> var k := ParseItem(bytes, old(cur.pos));
      k.Got? && k.value == key && ParseItem(bytes, k.end) == Got(val, cur.pos)
    decreases |bytes| - cur.pos, 4
  {
    ghost var kr := ParseItem(bytes, cur.pos);
    key, val := Simple(22), Simple(22);
    var k := FromSlice(bytes, cur);
    if k.None? { return None, key, val; }
    ghost var vr := ParseItem(bytes, cur.pos);
    var v := FromSlice(bytes, cur);
    if v.None? { return None, key, val; }
    return Some(Entry(k.value, v.value)), kr.value, vr.value;
  }

  lemma OpenEntry(bytes: seq<byte>, pos: nat, items: seq<Item>)
    requires pos < |bytes| && bytes[pos] != BREAK && |items| % 2 == 0
    ensures var k := ParseItem(bytes, pos);
      if k == Bad || ParseItem(bytes, k.end) == Bad then ReadEntries(After(items, ParseOpen(bytes, pos))) == Bad
      else
        var v := ParseItem(bytes, k.end);
        After(items, ParseOpen(bytes, pos)) == After(items + [k.value] + [v.value], ParseOpen(bytes, v.end))
  {
    var k := ParseItem(bytes, pos);
    if k.Got? && ParseItem(bytes, k.end).Got? {
      var v := ParseItem(bytes, k.end);
      assert ParseOpen(bytes, k.end) == After([v.value], ParseOpen(bytes, v.end));
      AfterTwo(items, k.value, v.value, ParseOpen(bytes, v.end));
    } else if k.Got? {
      assert ParseOpen(bytes, k.end) == Bad || ParseOpen(bytes, k.end).value == [];
    }
  }

  lemma CountedEntry(bytes: seq<byte>, pos: nat, items: seq<Item>, count: nat)
    requires pos <= |bytes| && count >= 2 && |items| % 2 == 0
    ensures var k := ParseItem(bytes, pos);
      if k == Bad || ParseItem(bytes, k.end) == Bad then ParseItems(bytes, pos, count) == Bad
      else
        var v := ParseItem(bytes, k.end);
        After(items, ParseItems(bytes, pos, count))
          == After(items + [k.value] + [v.value], ParseItems(bytes, v.end, count - 2))
  {
    var k := ParseItem(bytes, pos);
    if k.Got? && ParseItem(bytes, k.end).Got? {
      var v := ParseItem(bytes, k.end);
      assert ParseItems(bytes, k.end, count - 1) == After([v.value], ParseItems(bytes, v.end, count - 2));
      AfterTwo(items, k.value, v.value, ParseItems(bytes, v.end, count - 2));
    }
  }

  lemma EntryAppend(items: seq<Item>, k: Item, v: Item)
    requires |items| % 2 == 0
    ensures PairUp(Meanings(items + [k] + [v])) == PairUp(Meanings(items)) + [Entry(Meaning(k), Meaning(v))]
  {
    MeaningsAppend(items, k);
    MeaningsAppend(items + [k], v);
    PairUpAppend(Meanings(items), Meaning(k), Meaning(v));
    assert Meanings(items) + [Meaning(k), Meaning(v)] == Meanings(items) + [Meaning(k)] + [Meaning(v)];
  }

  /** What decoding gives, by major type, when the bytes behind the head byte start at `pos`. */
  predicate DecodesTo(bytes: seq<byte>, pos: nat, major: nat, info: nat, r: Read<Value>)
    requires pos <= |bytes|
  {
    if major == 2 || major == 3 then r == StringValue(StringPayload(bytes, pos, info, major == 3), major == 3)
    else if major == 4 then r == ArrayValue(ReadValues(ArrayBody(bytes, pos, info, 1)))
    else if major == 5 then r == MapValue(ReadEntries(ArrayBody(bytes, pos, info, 2)))
    else if major == 7 then r == if 20 <= info <= 23 then Got(Meaning(Simple(info)), pos) else Bad
    else
      match ParseArg(bytes, pos, info)
      case Bad => r == Bad
      case Got(arg, at) =>
        if major == 0 then r == Got(Integer(arg.n), at)
        else if major == 1 then r == Got(Integer(-1 - (arg.n as int)), at)
        else r == TagValue(arg.n, Decode(bytes, at))
  }

  function StringValue(r: Read<seq<byte>>, text: bool): Read<Value> {
    match r
    case Bad => Bad
    case Got(p, end) =>
      if !text then Got(Bytes(p), end)
      else match Utf8.Decode(p) { case None => Bad case Some(s) => Got(Text(s), end) }
  }

  function ArrayValue(r: Read<seq<Value>>): Read<Value> {
    match r case Bad => Bad case Got(vs, end) => Got(Array(vs), end)
  }

  function MapValue(r: Read<seq<Entry>>): Read<Value> {
    match r case Bad => Bad case Got(es, end) => Got(Map(es), end)
  }

  function TagValue(tag: u64, r: Read<Value>): Read<Value> {
    match r case Bad => Bad case Got(v, end) => Got(Tag(tag, v), end)
  }

  lemma DecodeByMajor(bytes: seq<byte>, pos: nat)
    requires pos < |bytes|
    ensures DecodesTo(bytes, pos + 1, bytes[pos] / 32, bytes[pos] % 32, Decode(bytes, pos))
  {
    hide ParseItems, ParseOpen, ParseChunks, ArgLimit;
    var major, info := bytes[pos] / 32, bytes[pos] % 32;
    if major !in {2, 3, 7} && !(info == 31 && major in {4, 5}) {
      match ParseArg(bytes, pos + 1, info)
      case Bad =>
      case Got(arg, at) => assert ParseItem(bytes, pos) == ParseHeaded(bytes, at, major, arg);
    }
  }

  /** Decode one data item at the cursor. */
  method FromSlice(bytes: seq<byte>, cur: Cursor) returns (r: Option<Value>)
    requires cur.pos <= |bytes|
    modifies cur
    ensures Agrees(Decode(bytes, old(cur.pos)), r, cur.pos)
    decreases |bytes| - cur.pos, 3
  {
    var head := ReadHeadByte(bytes, cur);
    if head.None? { return None; }
    DecodeByMajor(bytes, old(cur.pos));
    r := FromHead(bytes, cur, head.value.0, head.value.1, Decode(bytes, old(cur.pos)));
  }

  /** Dispatch on the major type of the head byte just read. */
  method FromHead(bytes: seq<byte>, cur: Cursor, major: nat, info: nat, ghost spec: Read<Value>)
    returns (r: Option<Value>)
    requires major < 8 && cur.pos <= |bytes| && DecodesTo(bytes, cur.pos, major, info, spec)
    modifies cur
    ensures Agrees(spec, r, cur.pos)
    decreases |bytes| - cur.pos, 8
  {
    if major == 0 {
      var n, w := ReadArg(bytes, cur, info);
      return if n.None? then None else Some(Integer(n.value as int));
    } else if major == 1 {
      var n, w := ReadArg(bytes, cur, info);
      return if n.None? then None else Some(Integer(-1 - (n.value as int)));
    } else if major == 2 {
      var raw := ReadStringBytes(bytes, cur, info, false);
      return if raw.None? then None else Some(Bytes(raw.value));
    } else if major == 3 {
      var raw := ReadStringBytes(bytes, cur, info, true);
      if raw.None? { return None; }
      var s := Utf8.Decode(raw.value);
      return if s.None? then None else Some(Text(s.value));
    } else if major == 4 {
      var items := ReadArray(bytes, cur, info);
      return if items.None? then None else Some(Array(items.value));
    } else if major == 5 {
      var entries := ReadMap(bytes, cur, info);
      return if entries.None? then None else Some(Map(entries.value));
    } else if major == 6 {
      var tag, w := ReadArg(bytes, cur, info);
      if tag.None? { return None; }
      var inner := FromSlice(bytes, cur);
      return if inner.None? then None else Some(Tag(tag.value, inner.value));
    } else {
      r := ReadSimple(info);
    }
  }

  // ---------------------------------------------------------------- writer

  method EncodeHead(major: nat, arg: u64, out: Output)
    requires major < 8
    modifies out
    ensures out.data == old(out.data) + Head(major, Narrowest(arg), arg)
  {
    var top := 32 * major;
    if arg < 24 {
      out.Push(top + arg);
      assert ToBytes(arg, 0) == [];
    } else if arg <= 0xFF {
      out.Push(top + 24);
      out.Push(arg % 0x100);
      assert ToBytes(arg, 1) == ToBytes(arg / 256, 0) + [arg];
    } else if arg <= 0xFFFF {
      out.Push(top + 25);
      out.Extend(ToBytes(arg, 2));
    } else if arg <= 0xFFFF_FFFF {
      out.Push(top + 26);
      out.Extend(ToBytes(arg, 4));
    } else {
      out.Push(top + 27);
      out.Extend(ToBytes(arg, 8));
    }
  }

  /** A length head and the string behind it. */
  method EncodeString(text: bool, raw: seq<byte>, out: Output)
    requires |raw| < U64
    modifies out
    ensures out.data == old(out.data) + (Head(StrMajor(text), Narrowest(|raw|), |raw|) + raw)
  {
    EncodeHead(StrMajor(text), |raw|, out);
    out.Extend(raw);
  }

  /** Append the canonical encoding of `value`. */
  method EncodeValue(value: Value, out: Output)
    requires Fits(value)
    modifies out
    ensures out.data == old(out.data) + Encode(value)
    decreases value, 1
  {
    ghost var before := out.data;
    match value
    case Integer(i) =>
      if i >= 0 { EncodeHead(0, i % U64, out); } else { EncodeHead(1, (-1 - i) % U64, out); }
    case Bytes(b) =>
      EncodeString(false, b, out);
    case Text(s) =>
      EncodeString(true, Utf8.Encode(s), out);
    case Array(items) => EncodeItems(items, out);
    case Map(entries) => EncodeEntries(entries, out);
    case Tag(tag, inner) =>
      EncodeHead(6, tag, out);
      EncodeValue(inner, out);
      SeqAssoc(before, Head(6, Narrowest(tag), tag), Encode(inner));
    case Bool(v) => out.Push(if v then 0xF5 else 0xF4);
    case Null => out.Push(0xF6);
  }

  method EncodeItems(items: seq<Value>, out: Output)
    requires |items| < U64 && AllFit(items)
    modifies out
    ensures out.data == old(out.data) + Encode(Array(items))
    decreases items, 0
  {
    EncodeHead(4, |items|, out);
    ghost var start := out.data;
    for i := 0 to |items|
      invariant AllFit(items[i..])
      invariant out.data + RenderAll(CanonAll(items[i..])) == start + RenderAll(CanonAll(items))
    {
      ghost var before, rest := out.data, RenderAll(CanonAll(items[i + 1..]));
      assert items[i..][1..] == items[i + 1..];
      RenderCons(Canon(items[i]), CanonAll(items[i + 1..]));
      EncodeValue(items[i], out);
      SeqAssoc(before, Encode(items[i]), rest);
    }
    SeqAssoc(old(out.data), Head(4, Narrowest(|items|), |items|), RenderAll(CanonAll(items)));
  }

  lemma EntriesUnfold(entries: seq<Entry>)
    requires entries != [] && EntriesFit(entries) && EntryFits(entries[0]) && EntriesFit(entries[1..])
    ensures RenderAll(CanonEntries(entries)) ==
      Encode(entries[0].key) + (Encode(entries[0].val) + RenderAll(CanonEntries(entries[1..])))
  {
    var e := entries[0];
    RenderTwo(Canon(e.key), Canon(e.val), CanonEntries(entries[1..]));
    assert CanonEntry(e) == [Canon(e.key), Canon(e.val)];
  }

  lemma TwoAppended(before: seq<byte>, k: seq<byte>, v: seq<byte>, rest: seq<byte>)
    ensures before + k + v + rest == before + (k + (v + rest))
  {
  }

  method EncodeEntries(entries: seq<Entry>, out: Output)
    requires |entries| < U64 && EntriesFit(entries)
    modifies out
    ensures out.data == old(out.data) + Encode(Map(entries))
    decreases entries, 0
  {
    EncodeHead(5, |entries|, out);
    ghost var start, total := out.data, RenderAll(CanonEntries(entries));
    ghost var rest := total;
    for i := 0 to |entries|
      invariant EntriesFit(entries[i..]) && rest == RenderAll(CanonEntries(entries[i..]))
      invariant out.data + rest == start + total
    {
      ghost var before := out.data;
      assert entries[i..][1..] == entries[i + 1..];
      EntriesUnfold(entries[i..]);
      rest := RenderAll(CanonEntries(entries[i + 1..]));
      EncodeEntry(entries[i], out);
      TwoAppended(before, Encode(entries[i].key), Encode(entries[i].val), rest);
    }
    SeqAssoc(old(out.data), Head(5, Narrowest(|entries|), |entries|), total);
  }

  method EncodeEntry(e: Entry, out: Output)
    requires EntryFits(e)
    modifies out
    ensures out.data == old(out.data) + Encode(e.key) + Encode(e.val)
    decreases e, 2
  {
    EncodeValue(e.key, out);
    EncodeValue(e.val, out);
  }

  method ToVec(value: Value) returns (bytes: seq<byte>)
    requires Fits(value)
    ensures bytes == Encode(value)
  {
    var out := new Output();
    EncodeValue(value, out);
    bytes := out.data;
  }

  // ---------------------------------------------------------------- sequences

  function Join<T>(front: seq<T>, rest: Option<seq<T>>): Option<seq<T>> {
    match rest case None => None case Some(items) => Some(front + items)
  }

  lemma Joined<T>(front: seq<T>, rest: Option<seq<T>>, mid: seq<T>)
    ensures Join([], rest) == rest && Join(front, Join(mid, rest)) == Join(front + mid, rest)
  {
    if rest.Some? {
      assert [] + rest.value == rest.value;
      assert front + (mid + rest.value) == front + mid + rest.value;
    }
  }

  method CborSeqFromBytes(bytes: seq<byte>) returns (r: Option<seq<Value>>)
    ensures r == Values(bytes)
  {
    var cur := new Cursor(0);
    var items := [];
    ghost var trees: seq<Item> := [];
    Joined([], ParseSequence(bytes, 0), []);
    while cur.pos < |bytes|
      invariant cur.pos <= |bytes| && items == Meanings(trees)
      invariant ParseSequence(bytes, 0) == Join(trees, ParseSequence(bytes, cur.pos))
      decreases |bytes| - cur.pos
    {
      ghost var first := ParseItem(bytes, cur.pos);
      var v := FromSlice(bytes, cur);
      if v.None? { return None; }
      Joined(trees, ParseSequence(bytes, cur.pos), [first.value]);
      MeaningsAppend(trees, first.value);
      items, trees := items + [v.value], trees + [first.value];
    }
    assert trees + [] == trees;
    return Some(items);
  }

  /** Decode a CBOR sequence item by item and encode each again. */
  method NormalizeCborSeq(bytes: seq<byte>) returns (r: Option<seq<byte>>)
    requires |bytes| < U64
    ensures r == Normalize(bytes)
  {
    var items := CborSeqFromBytes(bytes);
    if items.None? { return None; }
    SequenceSound(bytes, 0);
    ghost var trees := ParseSequence(bytes, 0).value;
    assert RenderAll(trees) == bytes;
    MeaningsEncode(trees);
    var out := [];
    for i := 0 to |items.value|
      invariant AllFit(items.value[i..])
      invariant out + RenderAll(CanonAll(items.value[i..])) == RenderAll(CanonAll(items.value))
    {
      assert items.value[i..][1..] == items.value[i + 1..];
      RenderCons(Canon(items.value[i]), CanonAll(items.value[i + 1..]));
      var enc := ToVec(items.value[i]);
      SeqAssoc(out, enc, RenderAll(CanonAll(items.value[i + 1..])));
      out := out + enc;
    }
    assert out + [] == out;
    return Some(out);
  }
}
