// The CBOR decoder as a function from bytes to parse trees, and its agreement with the wire grammar:
// it finds a tree exactly when one is written there, and then the only one.

module CborParse {
  import opened Bytes
  import opened BigEndian
  import opened Cbor
  import Utf8

  datatype Read<+T> = Bad | Got(value: T, end: nat)

  datatype Arg = Arg(w: Width, n: u64)

  /** The argument behind a head byte whose low five bits are `info`. */
  function ParseArg(bytes: seq<byte>, pos: nat, info: nat): (r: Read<Arg>)
    requires pos <= |bytes|
    ensures r.Got? ==> pos <= r.end <= |bytes| && r.value.n < ArgLimit(r.value.w)
  {
    if info < 24 then Got(Arg(Direct, info), pos)
    else if info == 24 then Wide(bytes, pos, W1)
    else if info == 25 then Wide(bytes, pos, W2)
    else if info == 26 then Wide(bytes, pos, W4)
    else if info == 27 then Wide(bytes, pos, W8)
    else Bad
  }

  lemma LimitIsPower(w: Width)
    requires w != Direct
    ensures ArgLimit(w) == Pow256(ArgBytes(w))
  {
    Pow256Values();
  }

  function Wide(bytes: seq<byte>, pos: nat, w: Width): (r: Read<Arg>)
    requires pos <= |bytes| && w != Direct
    ensures r.Got? ==> pos <= r.end <= |bytes| && r.value.n < ArgLimit(r.value.w)
  {
    var end := pos + ArgBytes(w);
    if end > |bytes| then Bad
    else
      ToFromBytes(bytes[pos..end]);
      LimitIsPower(w);
      Got(Arg(w, FromBytes(bytes[pos..end])), end)
  }

  function ParseChunks(bytes: seq<byte>, pos: nat, text: bool): (r: Read<seq<Chunk>>)
    ensures r.Got? ==> pos < r.end <= |bytes|
    decreases |bytes| - pos
  {
    if pos >= |bytes| then Bad
    else if bytes[pos] == BREAK then Got([], pos + 1)
    else if bytes[pos] / 32 != StrMajor(text) then Bad
    else
      match ParseArg(bytes, pos + 1, bytes[pos] % 32)
      case Bad => Bad
      case Got(arg, at) =>
        if at + arg.n > |bytes| then Bad
        else
          match ParseChunks(bytes, at + arg.n, text)
          case Bad => Bad
          case Got(rest, end) => Got([Chunk(arg.w, bytes[at..at + arg.n])] + rest, end)
  }

  function Checked(text: bool, payload: seq<byte>, it: Item, end: nat): Read<Item> {
    if text && Utf8.Decode(payload).None? then Bad else Got(it, end)
  }

  function ParseString(bytes: seq<byte>, pos: nat, info: nat, text: bool): (r: Read<Item>)
    requires pos <= |bytes|
    ensures r.Got? ==> pos <= r.end <= |bytes|
  {
    if info != 31 then
      match ParseArg(bytes, pos, info)
      case Bad => Bad
      case Got(arg, at) =>
        if at + arg.n > |bytes| then Bad
        else
          var payload := bytes[at..at + arg.n];
          Checked(text, payload, Str(text, arg.w, payload), at + arg.n)
    else
      match ParseChunks(bytes, pos, text)
      case Bad => Bad
      case Got(chunks, end) => Checked(text, ChunkBytes(chunks), Chunked(text, chunks), end)
  }

  /** The data item at `pos` and where it ends. */
  function ParseItem(bytes: seq<byte>, pos: nat): (r: Read<Item>)
    ensures r.Got? ==> pos < r.end <= |bytes|
    decreases |bytes| - pos, 1
  {
    if pos >= |bytes| then Bad
    else
      var major, info := bytes[pos] / 32, bytes[pos] % 32;
      if major == 2 || major == 3 then ParseString(bytes, pos + 1, info, major == 3)
      else if major == 7 then
        if 20 <= info <= 23 then Got(Simple(info), pos + 1) else Bad
      else if info == 31 && (major == 4 || major == 5) then
        match ParseOpen(bytes, pos + 1)
        case Bad => Bad
        case Got(items, end) =>
          if major == 4 then Got(ArrOpen(items), end)
          else if |items| % 2 == 0 then Got(DictOpen(items), end)
          else Bad
      else
        match ParseArg(bytes, pos + 1, info)
        case Bad => Bad
        case Got(arg, at) => ParseHeaded(bytes, at, major, arg)
  }

  /** The data item whose head, already read, gave a major type and an argument. */
  function ParseHeaded(bytes: seq<byte>, at: nat, major: nat, arg: Arg): (r: Read<Item>)
    requires at <= |bytes|
    ensures r.Got? ==> at <= r.end <= |bytes|
    decreases |bytes| - at, 3
  {
    if major == 0 then Got(Unsigned(arg.w, arg.n), at)
    else if major == 1 then Got(Negative(arg.w, arg.n), at)
    else if major == 6 then
      match ParseItem(bytes, at)
      case Bad => Bad
      case Got(inner, end) => Got(Tagged(arg.w, arg.n, inner), end)
    else
      match ParseItems(bytes, at, if major == 4 then arg.n else 2 * arg.n)
      case Bad => Bad
      case Got(items, end) => Got(if major == 4 then Arr(arg.w, items) else Dict(arg.w, items), end)
  }

  /** `count` data items in a row. */
  function ParseItems(bytes: seq<byte>, pos: nat, count: nat): (r: Read<seq<Item>>)
    requires pos <= |bytes|
    ensures r.Got? ==> pos <= r.end <= |bytes| && |r.value| == count
    decreases |bytes| - pos, 2
  {
    if count == 0 then Got([], pos)
    else
      match ParseItem(bytes, pos)
      case Bad => Bad
      case Got(first, at) =>
        match ParseItems(bytes, at, count - 1)
        case Bad => Bad
        case Got(rest, end) => Got([first] + rest, end)
  }

  /** Data items up to and including the break byte. */
  function ParseOpen(bytes: seq<byte>, pos: nat): (r: Read<seq<Item>>)
    ensures r.Got? ==> pos < r.end <= |bytes|
    decreases |bytes| - pos, 2
  {
    if pos >= |bytes| then Bad
    else if bytes[pos] == BREAK then Got([], pos + 1)
    else
      match ParseItem(bytes, pos)
      case Bad => Bad
      case Got(first, at) =>
        match ParseOpen(bytes, at)
        case Bad => Bad
        case Got(rest, end) => Got([first] + rest, end)
  }

  // ---------------------------------------------------------------- what is found is written there

  lemma SliceCons(bytes: seq<byte>, pos: nat, end: nat, b: byte, body: seq<byte>)
    requires pos < end <= |bytes| && bytes[pos] == b && bytes[pos + 1..end] == body
    ensures Fills(bytes, pos, end, [b] + body)
  {
  }

  lemma WideSound(bytes: seq<byte>, pos: nat, w: Width)
    requires pos <= |bytes| && w != Direct && Wide(bytes, pos, w).Got?
    ensures var r := Wide(bytes, pos, w);
      r.end == pos + ArgBytes(w) && r.value.w == w && bytes[pos..r.end] == ToBytes(r.value.n, ArgBytes(w))
  {
    ToFromBytes(bytes[pos..pos + ArgBytes(w)]);
  }

  lemma ArgSound(bytes: seq<byte>, pos: nat, major: nat)
    requires pos < |bytes| && bytes[pos] / 32 == major
    requires ParseArg(bytes, pos + 1, bytes[pos] % 32).Got?
    ensures var r := ParseArg(bytes, pos + 1, bytes[pos] % 32);
      Fills(bytes, pos, r.end, Head(major, r.value.w, r.value.n))
  {
    var r := ParseArg(bytes, pos + 1, bytes[pos] % 32);
    if r.value.w != Direct { WideSound(bytes, pos + 1, r.value.w); }
    SliceCons(bytes, pos, r.end, bytes[pos], ToBytes(r.value.n, ArgBytes(r.value.w)));
  }

  /** A parsed head with `body` behind it. */
  lemma HeadFills(bytes: seq<byte>, pos: nat, at: nat, end: nat, major: nat, w: Width, n: u64, body: seq<byte>)
    requires pos < |bytes| && bytes[pos] / 32 == major && n < ArgLimit(w)
    requires ParseArg(bytes, pos + 1, bytes[pos] % 32) == Got(Arg(w, n), at)
    requires Fills(bytes, at, end, body)
    ensures Fills(bytes, pos, end, Head(major, w, n) + body)
  {
    ArgSound(bytes, pos, major);
    FillsThen(bytes, pos, at, end, Head(major, w, n), body);
  }

  lemma {:induction false} ChunksSound(bytes: seq<byte>, pos: nat, text: bool)
    requires ParseChunks(bytes, pos, text).Got?
    ensures var r := ParseChunks(bytes, pos, text);
      ChunksOk(r.value) && Fills(bytes, pos, r.end, RenderChunks(text, r.value) + [BREAK])
    decreases |bytes| - pos
  {
    if bytes[pos] != BREAK {
      match ParseArg(bytes, pos + 1, bytes[pos] % 32)
      case Got(arg, at) =>
        var next := at + arg.n;
        var r := ParseChunks(bytes, next, text);
        ChunksSound(bytes, next, text);
        var c := Chunk(arg.w, bytes[at..next]);
        var t := RenderChunks(text, r.value);
        FillsThen(bytes, at, next, r.end, c.payload, t + [BREAK]);
        HeadFills(bytes, pos, at, r.end, StrMajor(text), arg.w, arg.n, c.payload + (t + [BREAK]));
        ChunkCons(text, c, r.value, Head(StrMajor(text), arg.w, arg.n));
    }
  }

  lemma ChunkCons(text: bool, c: Chunk, rest: seq<Chunk>, h: seq<byte>)
    requires |c.payload| < ArgLimit(c.w) && ChunksOk(rest) && h == Head(StrMajor(text), c.w, |c.payload|)
    ensures ChunksOk([c] + rest)
    ensures RenderChunks(text, [c] + rest) + [BREAK] == h + (c.payload + (RenderChunks(text, rest) + [BREAK]))
  {
    var t := RenderChunks(text, rest);
    assert ([c] + rest)[1..] == rest;
    SeqAssoc(h + c.payload, t, [BREAK]);
    SeqAssoc(h, c.payload, t + [BREAK]);
  }

  lemma StringSound(bytes: seq<byte>, pos: nat, text: bool)
    requires pos < |bytes| && bytes[pos] / 32 == StrMajor(text)
    requires ParseString(bytes, pos + 1, bytes[pos] % 32, text).Got?
    ensures var r := ParseString(bytes, pos + 1, bytes[pos] % 32, text);
      Ok(r.value) && Fills(bytes, pos, r.end, Render(r.value))
  {
    hide Head, ParseArg, ParseChunks;
    var r := ParseString(bytes, pos + 1, bytes[pos] % 32, text);
    if bytes[pos] % 32 != 31 {
      var arg := ParseArg(bytes, pos + 1, bytes[pos] % 32);
      HeadFills(bytes, pos, arg.end, r.end, StrMajor(text), arg.value.w, arg.value.n, r.value.payload);
    } else {
      ChunksSound(bytes, pos + 1, text);
      OpenFills(bytes, pos, r.end, StrMajor(text), RenderChunks(text, r.value.chunks));
    }
  }

  /** A tree the decoder finds is written at that place. */
  lemma {:induction false} ItemSound(bytes: seq<byte>, pos: nat)
    requires ParseItem(bytes, pos).Got?
    ensures var r := ParseItem(bytes, pos); Ok(r.value) && Fills(bytes, pos, r.end, Render(r.value))
    decreases |bytes| - pos, 1
  {
    var major, info := bytes[pos] / 32, bytes[pos] % 32;
    if major == 2 || major == 3 {
      StringSound(bytes, pos, major == 3);
    } else if info == 31 && (major == 4 || major == 5) {
      OpenSound(bytes, pos + 1);
      var r := ParseOpen(bytes, pos + 1);
      OpenFills(bytes, pos, r.end, major, RenderAll(r.value));
    } else if major != 7 {
      var arg := ParseArg(bytes, pos + 1, info);
      ArgSound(bytes, pos, major);
      HeadedSound(bytes, pos, arg.end, major, arg.value);
    }
  }

  lemma {:induction false} HeadedSound(bytes: seq<byte>, pos: nat, at: nat, major: nat, arg: Arg)
    requires major in {0, 1, 4, 5, 6} && arg.n < ArgLimit(arg.w)
    requires pos < at && Fills(bytes, pos, at, Head(major, arg.w, arg.n))
    requires ParseHeaded(bytes, at, major, arg).Got?
    ensures var r := ParseHeaded(bytes, at, major, arg); Ok(r.value) && Fills(bytes, pos, r.end, Render(r.value))
    decreases |bytes| - at, 3
  {
    var head := Head(major, arg.w, arg.n);
    if major == 6 {
      ItemSound(bytes, at);
      var r := ParseItem(bytes, at);
      FillsThen(bytes, pos, at, r.end, head, Render(r.value));
    } else if major == 4 || major == 5 {
      ContainerSound(bytes, pos, at, major == 5, arg);
    }
  }

  lemma {:induction false} ContainerSound(bytes: seq<byte>, pos: nat, at: nat, dict: bool, arg: Arg)
    requires pos < at && arg.n < ArgLimit(arg.w)
    requires Fills(bytes, pos, at, Head(if dict then 5 else 4, arg.w, arg.n))
    requires ParseItems(bytes, at, if dict then 2 * arg.n else arg.n).Got?
    ensures var r := ParseItems(bytes, at, if dict then 2 * arg.n else arg.n);
      var it := if dict then Dict(arg.w, r.value) else Arr(arg.w, r.value);
      Ok(it) && Fills(bytes, pos, r.end, Render(it))
    decreases |bytes| - at, 2, 1
  {
    hide Head, ParseItems;
    var count := if dict then 2 * arg.n else arg.n;
    ItemsSound(bytes, at, count);
    var r := ParseItems(bytes, at, count);
    FillsThen(bytes, pos, at, r.end, Head(if dict then 5 else 4, arg.w, arg.n), RenderAll(r.value));
  }

  lemma OpenFills(bytes: seq<byte>, pos: nat, end: nat, major: nat, body: seq<byte>)
    requires major < 7 && pos < |bytes| && bytes[pos] == OpenEnded(major)
    requires Fills(bytes, pos + 1, end, body + [BREAK])
    ensures Fills(bytes, pos, end, [OpenEnded(major)] + body + [BREAK])
  {
    FillsThen(bytes, pos, pos + 1, end, [OpenEnded(major)], body + [BREAK]);
    SeqAssoc([OpenEnded(major)], body, [BREAK]);
  }

  lemma {:induction false} ItemsSound(bytes: seq<byte>, pos: nat, count: nat)
    requires pos <= |bytes| && ParseItems(bytes, pos, count).Got?
    ensures var r := ParseItems(bytes, pos, count); AllOk(r.value) && Fills(bytes, pos, r.end, RenderAll(r.value))
    decreases |bytes| - pos, 2, 0
  {
    if count > 0 {
      ItemSound(bytes, pos);
      var first := ParseItem(bytes, pos);
      ItemsSound(bytes, first.end, count - 1);
      var rest := ParseItems(bytes, first.end, count - 1);
      FillsThen(bytes, pos, first.end, rest.end, Render(first.value), RenderAll(rest.value));
      RenderCons(first.value, rest.value);
    }
  }

  lemma RenderCons(first: Item, rest: seq<Item>)
    requires Ok(first) && AllOk(rest)
    ensures AllOk([first] + rest) && RenderAll([first] + rest) == Render(first) + RenderAll(rest)
  {
    assert ([first] + rest)[1..] == rest;
  }

  lemma {:induction false} OpenSound(bytes: seq<byte>, pos: nat)
    requires ParseOpen(bytes, pos).Got?
    ensures var r := ParseOpen(bytes, pos);
      AllOk(r.value) && Fills(bytes, pos, r.end, RenderAll(r.value) + [BREAK])
    decreases |bytes| - pos, 2
  {
    if bytes[pos] != BREAK {
      ItemSound(bytes, pos);
      var first := ParseItem(bytes, pos);
      OpenSound(bytes, first.end);
      var rest := ParseOpen(bytes, first.end);
      FillsThen(bytes, pos, first.end, rest.end, Render(first.value), RenderAll(rest.value) + [BREAK]);
      RenderCons(first.value, rest.value);
      SeqAssoc(Render(first.value), RenderAll(rest.value), [BREAK]);
    }
  }

  // ---------------------------------------------------------------- what is written there is found

  lemma HeadByte(major: nat, info: nat)
    requires info < 32
    ensures (32 * major + info) / 32 == major && (32 * major + info) % 32 == info
  {
  }

  lemma HeadTail(bytes: seq<byte>, pos: nat, end: nat, b: byte, tail: seq<byte>)
    requires Fills(bytes, pos, end, [b] + tail)
    ensures pos < end && bytes[pos] == b && bytes[pos + 1..end] == tail
  {
    assert bytes[pos..end][0] == bytes[pos] && bytes[pos..end][1..] == bytes[pos + 1..end];
  }

  lemma WideComplete(bytes: seq<byte>, pos: nat, end: nat, w: Width, n: u64)
    requires w != Direct && n < ArgLimit(w) && Fills(bytes, pos, end, ToBytes(n, ArgBytes(w)))
    ensures Wide(bytes, pos, w) == Got(Arg(w, n), end)
  {
    LimitIsPower(w);
    FromToBytes(n, ArgBytes(w));
  }

  lemma ArgComplete(bytes: seq<byte>, pos: nat, end: nat, major: nat, w: Width, n: u64)
    requires major < 8 && n < ArgLimit(w) && Fills(bytes, pos, end, Head(major, w, n))
    ensures bytes[pos] / 32 == major && bytes[pos] % 32 == Info(w, n)
    ensures ParseArg(bytes, pos + 1, bytes[pos] % 32) == Got(Arg(w, n), end)
  {
    HeadByte(major, Info(w, n));
    HeadTail(bytes, pos, end, 32 * major + Info(w, n), ToBytes(n, ArgBytes(w)));
    if w != Direct { WideComplete(bytes, pos + 1, end, w, n); }
  }

  lemma HeadSplit(bytes: seq<byte>, pos: nat, end: nat, major: nat, w: Width, n: u64, body: seq<byte>)
    returns (at: nat)
    requires major < 8 && n < ArgLimit(w) && Fills(bytes, pos, end, Head(major, w, n) + body)
    ensures bytes[pos] / 32 == major && bytes[pos] % 32 == Info(w, n)
    ensures ParseArg(bytes, pos + 1, bytes[pos] % 32) == Got(Arg(w, n), at) && Fills(bytes, at, end, body)
    ensures major in {0, 1, 4, 5, 6} ==> ParseItem(bytes, pos) == ParseHeaded(bytes, at, major, Arg(w, n))
  {
    at := pos + |Head(major, w, n)|;
    FillsSplit(bytes, pos, end, Head(major, w, n), body);
    ArgComplete(bytes, pos, at, major, w, n);
  }

  lemma ChunkFound(bytes: seq<byte>, pos: nat, at: nat, end: nat, text: bool, c: Chunk, rest: seq<Chunk>)
    requires pos < |bytes| && bytes[pos] / 32 == StrMajor(text) && |c.payload| < ArgLimit(c.w)
    requires ParseArg(bytes, pos + 1, bytes[pos] % 32) == Got(Arg(c.w, |c.payload|), at)
    requires Fills(bytes, at, at + |c.payload|, c.payload)
    requires ParseChunks(bytes, at + |c.payload|, text) == Got(rest, end)
    ensures ParseChunks(bytes, pos, text) == Got([c] + rest, end)
  {
  }

  lemma {:induction false} ChunksComplete(bytes: seq<byte>, pos: nat, end: nat, text: bool, chunks: seq<Chunk>)
    requires ChunksOk(chunks) && Fills(bytes, pos, end, RenderChunks(text, chunks) + [BREAK])
    ensures ParseChunks(bytes, pos, text) == Got(chunks, end)
    decreases |chunks|
  {
    if chunks == [] {
      assert bytes[pos..end][0] == bytes[pos];
    } else {
      var c, rest := chunks[0], chunks[1..];
      assert [c] + rest == chunks;
      ChunkCons(text, c, rest, Head(StrMajor(text), c.w, |c.payload|));
      var t := RenderChunks(text, rest) + [BREAK];
      var at := HeadSplit(bytes, pos, end, StrMajor(text), c.w, |c.payload|, c.payload + t);
      FillsSplit(bytes, at, end, c.payload, t);
      ChunksComplete(bytes, at + |c.payload|, end, text, rest);
      ChunkFound(bytes, pos, at, end, text, c, rest);
    }
  }

  /** A tree that is written at a place is the one the decoder finds there. */
  lemma {:induction false} ItemComplete(bytes: seq<byte>, pos: nat, end: nat, it: Item)
    requires Ok(it) && Fills(bytes, pos, end, Render(it))
    ensures ParseItem(bytes, pos) == Got(it, end)
    decreases it, 1
  {
    match it
    case Chunked(text, chunks) =>
      OpenSplit(bytes, pos, end, StrMajor(text), RenderChunks(text, chunks));
      ChunksComplete(bytes, pos + 1, end, text, chunks);
    case ArrOpen(items) =>
      OpenSplit(bytes, pos, end, 4, RenderAll(items));
      OpenComplete(bytes, pos + 1, end, items);
    case DictOpen(items) =>
      OpenSplit(bytes, pos, end, 5, RenderAll(items));
      OpenComplete(bytes, pos + 1, end, items);
    case Simple(code) =>
      assert bytes[pos] == bytes[pos..end][0];
    case _ => HeadedComplete(bytes, pos, end, it);
  }

  lemma {:induction false} HeadedComplete(bytes: seq<byte>, pos: nat, end: nat, it: Item)
    requires Ok(it) && Fills(bytes, pos, end, Render(it))
    requires !it.Chunked? && !it.ArrOpen? && !it.DictOpen? && !it.Simple?
    ensures ParseItem(bytes, pos) == Got(it, end)
    decreases it, 0
  {
    hide ParseArg, Head, ParseOpen;
    match it
    case Unsigned(w, n) =>
      var at := HeadSplit(bytes, pos, end, 0, w, n, []);
    case Negative(w, n) =>
      var at := HeadSplit(bytes, pos, end, 1, w, n, []);
    case Str(text, w, payload) =>
      var at := HeadSplit(bytes, pos, end, StrMajor(text), w, |payload|, payload);
    case Arr(w, items) =>
      var at := HeadSplit(bytes, pos, end, 4, w, |items|, RenderAll(items));
      ItemsComplete(bytes, at, end, items);
    case Dict(w, items) =>
      var at := HeadSplit(bytes, pos, end, 5, w, |items| / 2, RenderAll(items));
      ItemsComplete(bytes, at, end, items);
    case Tagged(w, n, inner) =>
      var at := HeadSplit(bytes, pos, end, 6, w, n, Render(inner));
      ItemComplete(bytes, at, end, inner);
  }

  lemma OpenSplit(bytes: seq<byte>, pos: nat, end: nat, major: nat, body: seq<byte>)
    requires major < 8 && Fills(bytes, pos, end, [OpenEnded(major)] + body + [BREAK])
    ensures bytes[pos] / 32 == major && bytes[pos] % 32 == 31 && Fills(bytes, pos + 1, end, body + [BREAK])
  {
    SeqAssoc([OpenEnded(major)], body, [BREAK]);
    FillsSplit(bytes, pos, end, [OpenEnded(major)], body + [BREAK]);
    assert bytes[pos..pos + 1][0] == bytes[pos];
  }

  lemma {:induction false} ItemsComplete(bytes: seq<byte>, pos: nat, end: nat, items: seq<Item>)
    requires AllOk(items) && Fills(bytes, pos, end, RenderAll(items))
    ensures ParseItems(bytes, pos, |items|) == Got(items, end)
    decreases items, 0
  {
    if items != [] {
      var mid := pos + |Render(items[0])|;
      FillsSplit(bytes, pos, end, Render(items[0]), RenderAll(items[1..]));
      ItemComplete(bytes, pos, mid, items[0]);
      ItemsComplete(bytes, mid, end, items[1..]);
      assert [items[0]] + items[1..] == items;
    }
  }

  lemma {:induction false} OpenComplete(bytes: seq<byte>, pos: nat, end: nat, items: seq<Item>)
    requires AllOk(items) && Fills(bytes, pos, end, RenderAll(items) + [BREAK])
    ensures ParseOpen(bytes, pos) == Got(items, end)
    decreases items, 0
  {
    if items == [] {
      assert bytes[pos..end][0] == bytes[pos];
    } else {
      var mid := pos + |Render(items[0])|;
      SeqAssoc(Render(items[0]), RenderAll(items[1..]), [BREAK]);
      FillsSplit(bytes, pos, end, Render(items[0]), RenderAll(items[1..]) + [BREAK]);
      ItemComplete(bytes, pos, mid, items[0]);
      OpenComplete(bytes, mid, end, items[1..]);
      assert bytes[pos] != BREAK;
      assert [items[0]] + items[1..] == items;
    }
  }
}
