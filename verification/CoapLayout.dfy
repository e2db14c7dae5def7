// CoAP messages byte by byte (RFC 7252 section 3, RFC 7959 section 2.2): the header, the option headers, unsigned and block
// values, which options a request carries and what a response says. Numbers are written out.

module CoapLayout {
  import opened Bytes
  import opened BigEndian
  import opened CoapMessage
  import opened CoapRequest
  import Utf8

  // ---------------------------------------------------------------- unsigned values

  /** Up to four bytes, most significant first; any other length reads as zero. */
  function UintAt(bs: seq<byte>): nat {
    if |bs| == 1 then bs[0]
    else if |bs| == 2 then 0x100 * (bs[0] as nat) + bs[1]
    else if |bs| == 3 then 0x1_0000 * (bs[0] as nat) + 0x100 * (bs[1] as nat) + bs[2]
    else if |bs| == 4 then 0x100_0000 * (bs[0] as nat) + 0x1_0000 * (bs[1] as nat) + 0x100 * (bs[2] as nat) + bs[3]
    else 0
  }

  lemma UintIs(bs: seq<byte>)
    ensures DecodeUint(bs) == UintAt(bs)
  {
    hide FromBytes;
    if 1 <= |bs| <= 4 {
      FewBytes(bs[0], if |bs| > 1 then bs[1] else 0, if |bs| > 2 then bs[2] else 0, if |bs| > 3 then bs[3] else 0);
      if |bs| == 1 { assert bs == [bs[0]]; }
      if |bs| == 2 { assert bs == [bs[0], bs[1]]; }
      if |bs| == 3 { assert bs == [bs[0], bs[1], bs[2]]; }
      if |bs| == 4 { assert bs == [bs[0], bs[1], bs[2], bs[3]]; }
    }
  }

  /** No leading zero byte, and no byte at all for zero. */
  predicate Spells(bs: seq<byte>, n: nat) {
    |bs| <= 4 && UintAt(bs) == n && (bs != [] ==> bs[0] != 0)
  }

  lemma UintSpelled(n: u32)
    ensures Spells(EncodeUint(n), n)
  {
    UintRoundTrip(n);
    UintIs(EncodeUint(n));
    Pow256Values();
    if n > 0 {
      ByteAt(n, |EncodeUint(n)|, 0);
    }
  }

  lemma UintSpelledOnce(a: seq<byte>, b: seq<byte>, n: nat)
    requires Spells(a, n) && Spells(b, n)
    ensures a == b
  {
  }

  // ---------------------------------------------------------------- what a request carries

  /** The values of the options with this number, in order. */
  function ValuesOf(opts: seq<Opt>, num: nat): seq<seq<byte>> {
    if opts == [] then [] else (if opts[0].num == num then [opts[0].val] else []) + ValuesOf(opts[1..], num)
  }

  function Utf8s(segs: seq<string>): seq<seq<byte>> {
    if segs == [] then [] else [Utf8.Encode(segs[0])] + Utf8s(segs[1..])
  }

  lemma {:induction false} ValuesConcat(a: seq<Opt>, b: seq<Opt>, num: nat)
    ensures ValuesOf(a + b, num) == ValuesOf(a, num) + ValuesOf(b, num)
    decreases |a|
  {
    if a == [] {
      assert a + b == b;
    } else {
      ValuesConcat(a[1..], b, num);
      assert (a + b)[1..] == a[1..] + b;
    }
  }

  lemma {:induction false} TextValues(n: u16, segs: seq<string>, num: nat)
    ensures ValuesOf(TextOpts(n, segs), num) == if n == num then Utf8s(segs) else []
    decreases |segs|
  {
    if segs != [] { TextValues(n, segs[1..], num); }
  }

  lemma UintValues(n: u16, val: Option<u32>, num: nat)
    ensures ValuesOf(UintOpt(n, val), num) == if n == num && val.Some? then [EncodeUint(val.value)] else []
  {
    if val.Some? { assert UintOpt(n, val)[1..] == []; }
  }

  /** The options of a request, number by number. */
  lemma RequestValues(p: Request, num: nat)
    ensures ValuesOf(RequestOpts(p), num) ==
      if num == 11 then Utf8s(PathSegments(p.uri))
      else if num == 12 then (if p.contentFormat.Some? then [EncodeUint(p.contentFormat.value)] else [])
      else if num == 15 then Utf8s(QuerySegments(p.uri))
      else if num == 17 then (if p.accept.Some? then [EncodeUint(p.accept.value)] else [])
      else if num == 23 then [EncodeUint(EncodeBlock(p.block2.(more := false)))]
      else if num == 27 then (if p.block1.Some? then [EncodeUint(EncodeBlock(p.block1.value))] else [])
      else []
  {
    hide Utf8s, EncodeUint, EncodeBlock, PathSegments, QuerySegments, TextOpts, UintOpt;
    var path, query := TextOpts(OPT_URI_PATH, PathSegments(p.uri)), TextOpts(OPT_URI_QUERY, QuerySegments(p.uri));
    var cf, accept := UintOpt(OPT_CONTENT_FORMAT, Widen(p.contentFormat)), UintOpt(OPT_ACCEPT, Widen(p.accept));
    var b2 := UintOpt(OPT_BLOCK2, Some(EncodeBlock(p.block2.(more := false))));
    var b1 := UintOpt(OPT_BLOCK1, BlockVal(p.block1));
    ValuesConcat(path, cf + (query + (accept + (b2 + b1))), num);
    ValuesConcat(cf, query + (accept + (b2 + b1)), num);
    ValuesConcat(query, accept + (b2 + b1), num);
    ValuesConcat(accept, b2 + b1, num);
    ValuesConcat(b2, b1, num);
    TextValues(OPT_URI_PATH, PathSegments(p.uri), num);
    TextValues(OPT_URI_QUERY, QuerySegments(p.uri), num);
    UintValues(OPT_CONTENT_FORMAT, Widen(p.contentFormat), num);
    UintValues(OPT_ACCEPT, Widen(p.accept), num);
    UintValues(OPT_BLOCK2, Some(EncodeBlock(p.block2.(more := false))), num);
    UintValues(OPT_BLOCK1, BlockVal(p.block1), num);
  }

  predicate AllShort(segs: seq<string>) {
    forall i :: 0 <= i < |segs| ==> |Utf8.Encode(segs[i])| < 0x1_0000
  }

  lemma {:induction false} TextsShort(n: u16, segs: seq<string>)
    requires AllShort(segs)
    ensures Short(TextOpts(n, segs))
    decreases |segs|
  {
    if segs != [] { TextsShort(n, segs[1..]); }
  }

  lemma UintShort(n: u16, val: Option<u32>)
    ensures Short(UintOpt(n, val))
  {
  }

  lemma ShortConcat(a: seq<Opt>, b: seq<Opt>)
    requires Short(a) && Short(b)
    ensures Short(a + b)
  {
  }

  lemma RequestShort(p: Request)
    requires AllShort(PathSegments(p.uri)) && AllShort(QuerySegments(p.uri))
    ensures Short(RequestOpts(p))
  {
    hide Short, UintOpt, TextOpts, AllShort, PathSegments, QuerySegments, EncodeBlock;
    var path, query := TextOpts(OPT_URI_PATH, PathSegments(p.uri)), TextOpts(OPT_URI_QUERY, QuerySegments(p.uri));
    var cf, accept := UintOpt(OPT_CONTENT_FORMAT, Widen(p.contentFormat)), UintOpt(OPT_ACCEPT, Widen(p.accept));
    var b2 := UintOpt(OPT_BLOCK2, Some(EncodeBlock(p.block2.(more := false))));
    var b1 := UintOpt(OPT_BLOCK1, BlockVal(p.block1));
    TextsShort(OPT_URI_PATH, PathSegments(p.uri));
    TextsShort(OPT_URI_QUERY, QuerySegments(p.uri));
    UintShort(OPT_CONTENT_FORMAT, Widen(p.contentFormat));
    UintShort(OPT_ACCEPT, Widen(p.accept));
    UintShort(OPT_BLOCK2, Some(EncodeBlock(p.block2.(more := false))));
    UintShort(OPT_BLOCK1, BlockVal(p.block1));
    ShortConcat(b2, b1);
    ShortConcat(accept, b2 + b1);
    ShortConcat(query, accept + (b2 + b1));
    ShortConcat(cf, query + (accept + (b2 + b1)));
    ShortConcat(path, cf + (query + (accept + (b2 + b1))));
  }

  /** Exactly one value that spells the number asked for, or none. */
  predicate Carried(vs: seq<seq<byte>>, n: Option<nat>) {
    match n case None => vs == [] case Some(x) => |vs| == 1 && Spells(vs[0], x)
  }

  /** A block value: 28 bits of number, the more flag, three bits of size exponent. */
  function BlockNumber(b: Block, more: bool): nat {
    16 * (b.num % 0x1000_0000) + (if more then 8 else 0) + b.szx % 8
  }

  /** Numbers never fall, and no others are there. */
  predicate OnlyKnown(opts: seq<Opt>) {
    && (forall i :: 0 <= i < |opts| ==> opts[i].num in {11, 12, 15, 17, 23, 27})
    && (forall i :: 0 < i < |opts| ==> opts[i - 1].num <= opts[i].num)
  }

  /** What stands in a request: Uri-Path, Content-Format, Uri-Query, Accept, Block2 and Block1, as asked. */
  predicate Asks(p: Request, opts: seq<Opt>) {
    && ValuesOf(opts, 11) == Utf8s(PathSegments(p.uri))
    && Carried(ValuesOf(opts, 12), if p.contentFormat.Some? then Some(p.contentFormat.value) else None)
    && ValuesOf(opts, 15) == Utf8s(QuerySegments(p.uri))
    && Carried(ValuesOf(opts, 17), if p.accept.Some? then Some(p.accept.value) else None)
    && Carried(ValuesOf(opts, 23), Some(BlockNumber(p.block2, false)))
    && Carried(ValuesOf(opts, 27), if p.block1.Some? then Some(BlockNumber(p.block1.value, p.block1.value.more)) else None)
    && OnlyKnown(opts)
  }

  lemma CarriedUint(vs: seq<seq<byte>>, n: Option<u32>)
    requires vs == if n.Some? then [EncodeUint(n.value)] else []
    ensures Carried(vs, if n.Some? then Some(n.value) else None)
  {
    hide EncodeUint, Spells;
    if n.Some? { UintSpelled(n.value); }
  }

  lemma RequestAsks(p: Request)
    ensures Asks(p, RequestOpts(p))
  {
    hide Utf8s, EncodeUint, ValuesOf, Carried, PathSegments, QuerySegments, RequestOpts, OnlyKnown;
    RequestValues(p, 11);
    RequestValues(p, 12);
    CarriedUint(ValuesOf(RequestOpts(p), 12), Widen(p.contentFormat));
    RequestValues(p, 15);
    RequestValues(p, 17);
    CarriedUint(ValuesOf(RequestOpts(p), 17), Widen(p.accept));
    RequestValues(p, 23);
    CarriedUint(ValuesOf(RequestOpts(p), 23), Some(EncodeBlock(p.block2.(more := false))));
    RequestValues(p, 27);
    CarriedUint(ValuesOf(RequestOpts(p), 27), BlockVal(p.block1));
    RequestKnown(p);
  }

  lemma RequestKnown(p: Request)
    ensures OnlyKnown(RequestOpts(p))
  {
    hide RequestOpts, ValuesOf;
    var opts := RequestOpts(p);
    RequestOptsOrdered(p);
    OrderedNeverFalls(0, opts);
    forall i | 0 <= i < |opts| ensures opts[i].num in {11, 12, 15, 17, 23, 27} {
      RequestValues(p, opts[i].num);
      HasValue(opts, i);
    }
  }

  lemma {:induction false} OrderedNeverFalls(prev: u16, opts: seq<Opt>)
    requires Ordered(prev, opts)
    ensures forall i :: 0 < i < |opts| ==> opts[i - 1].num <= opts[i].num
    decreases |opts|
  {
    if opts != [] {
      OrderedNeverFalls(opts[0].num, opts[1..]);
      forall i | 0 < i < |opts| ensures opts[i - 1].num <= opts[i].num {
        if i > 1 { assert opts[1..][i - 2].num <= opts[1..][i - 1].num; }
      }
    }
  }

  lemma {:induction false} HasValue(opts: seq<Opt>, i: nat)
    requires i < |opts|
    ensures ValuesOf(opts, opts[i].num) != []
    decreases |opts|
  {
    if i > 0 { HasValue(opts[1..], i - 1); }
  }

  /** The code of each method: GET, POST, PUT, DELETE, FETCH and iPATCH. */
  function CodeOf(m: Method): nat {
    match m case Get => 1 case Post => 2 case Put => 3 case Delete => 4 case Fetch => 5 case Ipatch => 7
  }

  /**
   * Every request is a confirmable message of version 1 with a token of one byte; behind it stand the options asked for, no
   * others, and the payload, as long as every URI segment is shorter than 64 KiB.
   */
  lemma RequestSays(p: Request)
    ensures var wire := RequestWire(p);
      && |wire| >= 5 && wire[0] == 0x41 && wire[1] == CodeOf(p.method_)
      && 0x100 * (wire[2] as nat) + wire[3] == p.msgId && wire[4] == p.token
    ensures AllShort(PathSegments(p.uri)) && AllShort(QuerySegments(p.uri)) ==>
      var r := ReadTail(RequestWire(p), 5, 0);
      r.Done? && Asks(p, r.value.opts) && r.value.payload == p.payload
  {
    hide ReadTail, Asks, AllShort, RenderOpts, RenderPayload, RequestOpts;
    RequestOptsOrdered(p);
    if AllShort(PathSegments(p.uri)) && AllShort(QuerySegments(p.uri)) {
      RequestShort(p);
      OptionsRoundTrip(p);
      RequestAsks(p);
    }
  }

  // ---------------------------------------------------------------- how a URI is cut

  /** A delimiter cuts, wherever it stands; what holds none is one segment, unless it is empty. */
  lemma {:induction false} SegmentsCut(a: string, delim: char, b: string)
    ensures Segments(a + [delim] + b, delim) == Segments(a, delim) + Segments(b, delim)
    ensures delim !in a ==> Segments(a, delim) == if a == "" then [] else [a]
    decreases |a|
  {
    NoSegment(delim);
    hide Segments;
    var s := a + [delim] + b;
    if a == "" {
      LeadingDelimiter(delim, s);
      assert s[1..] == b && [] + Segments(b, delim) == Segments(b, delim);
    } else if a[0] == delim {
      LeadingDelimiter(delim, s);
      LeadingDelimiter(delim, a);
      assert s[1..] == a[1..] + [delim] + b;
      SegmentsCut(a[1..], delim, b);
    } else {
      SegmentInFront(a, delim, b);
    }
  }

  lemma NoSegment(delim: char)
    ensures Segments("", delim) == []
  {
  }

  lemma {:induction false} SegmentInFront(a: string, delim: char, b: string)
    requires a != "" && a[0] != delim
    ensures Segments(a + [delim] + b, delim) == Segments(a, delim) + Segments(b, delim)
    ensures delim !in a ==> Segments(a, delim) == [a]
    decreases |a|, 0
  {
    NoSegment(delim);
    hide Segments;
    var i := Find(a, delim);
    var seg, rest := a[..i], a[i..];
    assert a == seg + rest && a + [delim] + b == seg + (rest + [delim] + b);
    SegmentsCut(rest, delim, b);
    OneSegment(seg, delim, rest + [delim] + b);
    OneSegment(seg, delim, rest);
    SeqAssoc([seg], Segments(rest, delim), Segments(b, delim));
    if delim !in a { assert rest == "" && seg == a && [a] + [] == [a]; }
  }

  /** The path ends at the first question mark, and slashes cut it; the query is all behind it, cut at ampersands. */
  lemma UriParts(path: string, query: string)
    requires '?' !in path
    ensures PathSegments(path) == Segments(path, '/') && QuerySegments(path) == []
    ensures PathSegments(path + "?" + query) == Segments(path, '/')
    ensures QuerySegments(path + "?" + query) == Segments(query, '&')
  {
    var uri := path + "?" + query;
    FindAt(path, '?', "");
    FindAt(path, '?', "?" + query);
    assert path + "" == path && uri == path + ("?" + query);
    assert path[..|path|] == path && uri[..|path|] == path && uri[|path| + 1..] == query;
    if path != "" && path[0] == '/' {
      SegmentsCut("", '/', path[1..]);
      assert path == "" + ['/'] + path[1..] && [] + Segments(path[1..], '/') == Segments(path[1..], '/');
    }
  }

  // ---------------------------------------------------------------- what the parser reads

  /** A delta or length whose nibble is given, and where it ends: 13 and 14 announce one and two more bytes. */
  function Extended(msg: seq<byte>, at: nat, nibble: nat): Option<(nat, nat)> {
    if nibble < 13 then Some((nibble, at))
    else if nibble == 13 && at + 1 <= |msg| then Some((msg[at] as nat + 13, at + 1))
    else if nibble == 14 && at + 2 <= |msg| then Some((0x100 * (msg[at] as nat) + msg[at + 1] + 269, at + 2))
    else None
  }

  /** The option at `pos` behind one with number `prev`: its number, its value and its end. */
  function OptionAt(msg: seq<byte>, pos: nat, prev: nat): Option<(nat, seq<byte>, nat)>
    requires pos < |msg|
  {
    match Extended(msg, pos + 1, msg[pos] / 16)
    case None => None
    case Some((delta, mid)) =>
      match Extended(msg, mid, msg[pos] % 16)
      case None => None
      case Some((len, at)) => if at + len <= |msg| then Some((prev + delta, msg[at..at + len], at + len)) else None
  }

  /** An option is read exactly if it is there and its delta, length and number fit 16 bits. */
  lemma OptionRead(msg: seq<byte>, pos: nat, prev: u16)
    requires pos < |msg|
    ensures match ReadOpt(msg, pos, prev)
      case OptOk(o, end) => OptionAt(msg, pos, prev) == Some((o.num, o.val, end))
      case OptError => OptionAt(msg, pos, prev) == None
      case OptOverflow =>
        || Extended(msg, pos + 1, msg[pos] / 16).value.0 >= 0x1_0000
        || Extended(msg, Extended(msg, pos + 1, msg[pos] / 16).value.1, msg[pos] % 16).value.0 >= 0x1_0000
        || OptionAt(msg, pos, prev).value.0 >= 0x1_0000
  {
  }

  /** Options go on to the end or to a byte 0xFF with the payload behind it, which cannot be empty then. */
  lemma TailRead(msg: seq<byte>, pos: nat, prev: u16)
    ensures var r := ReadTail(msg, pos, prev);
      if pos >= |msg| then r == Done(Tail([], []))
      else if msg[pos] == 0xFF then r == if pos + 1 < |msg| then Done(Tail([], msg[pos + 1..])) else ParseError
      else
        match ReadOpt(msg, pos, prev)
        case OptError => r == ParseError
        case OptOverflow => r == Overflow
        case OptOk(o, end) =>
          match ReadTail(msg, end, o.num)
          case Done(t) => r == Done(Tail([o] + t.opts, t.payload))
          case rest => r == rest
  {
  }

  /** Of several options with this number the last one counts. */
  function LastUint(opts: seq<Opt>, num: nat): Option<nat> {
    var vs := ValuesOf(opts, num);
    if vs == [] then None else Some(UintAt(vs[|vs| - 1]))
  }

  function AsBlock(raw: nat): (r: (nat, bool, nat)) {
    (raw / 16, raw / 8 % 2 == 1, raw % 8)
  }

  predicate IsBlock(b: Option<Block>, raw: Option<nat>) {
    if raw.None? then b == None else b.Some? && (b.value.num, b.value.more, b.value.szx) == AsBlock(raw.value)
  }

  predicate IsFormat(cf: Option<u16>, raw: Option<nat>) {
    if raw.None? then cf == None else cf.Some? && cf.value == raw.value % 0x1_0000
  }

  lemma LastOfCons(o: Opt, rest: seq<Opt>, num: nat)
    ensures LastUint([o] + rest, num) ==
      if LastUint(rest, num).Some? then LastUint(rest, num) else if o.num == num then Some(UintAt(o.val)) else None
  {
    assert ([o] + rest)[1..] == rest;
  }

  /** `s` and then `opts`. */
  predicate Holds(s: Slots, opts: seq<Opt>, t: Slots) {
    && (if LastUint(opts, 12).None? then t.contentFormat == s.contentFormat else IsFormat(t.contentFormat, LastUint(opts, 12)))
    && (if LastUint(opts, 23).None? then t.block2 == s.block2 else IsBlock(t.block2, LastUint(opts, 23)))
    && (if LastUint(opts, 27).None? then t.block1 == s.block1 else IsBlock(t.block1, LastUint(opts, 27)))
  }

  lemma HoldsOne(s: Slots, o: Opt, rest: seq<Opt>, t: Slots)
    requires Holds(Keep(s, o), rest, t)
    ensures Holds(s, [o] + rest, t)
  {
    hide UintAt, LastUint;
    LastOfCons(o, rest, 12);
    LastOfCons(o, rest, 23);
    LastOfCons(o, rest, 27);
    UintIs(o.val);
  }

  lemma {:induction false} FoldHolds(s: Slots, opts: seq<Opt>)
    ensures Holds(s, opts, Fold(Keep, s, opts))
    decreases |opts|
  {
    hide Keep;
    if opts != [] {
      FoldHolds(Keep(s, opts[0]), opts[1..]);
      HoldsOne(s, opts[0], opts[1..], Fold(Keep, Keep(s, opts[0]), opts[1..]));
      assert [opts[0]] + opts[1..] == opts;
    }
  }

  /** What a message has to be, and what is read of it. */
  lemma MessageRead(msg: seq<byte>)
    ensures ParseMessage(msg).Done? <==>
      |msg| >= 4 && msg[0] / 64 == 1 && msg[0] % 16 <= 8 && 4 + msg[0] % 16 <= |msg| && ReadTail(msg, 4 + msg[0] % 16, 0).Done?
    ensures ParseMessage(msg).Done? ==>
      var m, t := ParseMessage(msg).value, ReadTail(msg, 4 + msg[0] % 16, 0).value;
      && m.msgType == (match msg[0] / 16 % 4 case 0 => Con case 1 => Non case 2 => Ack case _ => Rst)
      && m.code == msg[1] && m.msgId == 0x100 * (msg[2] as nat) + msg[3] && m.payload == t.payload
      && IsFormat(m.contentFormat, LastUint(t.opts, 12))
      && IsBlock(m.block2, LastUint(t.opts, 23)) && IsBlock(m.block1, LastUint(t.opts, 27))
  {
    hide ReadTail, LastUint, Keep;
    if |msg| >= 4 && 4 + msg[0] % 16 <= |msg| {
      var r := ReadTail(msg, 4 + msg[0] % 16, 0);
      if r.Done? { FoldHolds(NO_SLOTS, r.value.opts); }
    }
  }
}
