// Encoding a CoAP request and parsing a CoAP message, as the source does it, and the round trip between them.

module CoapRequest {
  import opened Bytes
  import opened CoapMessage
  import Utf8

  // ---------------------------------------------------------------- URI segments

  /** The index of the first `c`, or the length when there is none. */
  function Find(s: string, c: char): (i: nat)
    ensures i <= |s| && (i < |s| ==> s[i] == c) && c !in s[..i]
  {
    if s == "" then 0 else if s[0] == c then 0 else 1 + Find(s[1..], c)
  }

  /** The non-empty pieces between delimiters. */
  function Segments(s: string, delim: char): seq<string>
    decreases |s|
  {
    if s == "" then []
    else
      var i := Find(s, delim);
      (if i == 0 then [] else [s[..i]]) + (if i == |s| then [] else Segments(s[i + 1..], delim))
  }

  /** Each segment with a delimiter in front. */
  function Joined(segs: seq<string>, delim: char): string {
    if segs == [] then "" else [delim] + segs[0] + Joined(segs[1..], delim)
  }

  predicate Clean(segs: seq<string>, delim: char) {
    forall i :: 0 <= i < |segs| ==> segs[i] != "" && delim !in segs[i]
  }

  lemma {:induction false} FindAt(before: string, c: char, after: string)
    requires c !in before && (after != "" ==> after[0] == c)
    ensures Find(before + after, c) == |before|
    decreases |before|
  {
    if before == "" {
      assert before + after == after;
    } else {
      assert (before + after)[1..] == before[1..] + after;
      FindAt(before[1..], c, after);
    }
  }

  lemma OneSegment(seg: string, delim: char, rest: string)
    requires seg != "" && delim !in seg && (rest != "" ==> rest[0] == delim)
    ensures Segments(seg + rest, delim) == [seg] + Segments(rest, delim)
  {
    var t := seg + rest;
    FindAt(seg, delim, rest);
    assert t[..|seg|] == seg;
    if rest == "" {
      assert [seg] + [] == [seg];
    } else {
      LeadingDelimiter(delim, rest);
      assert t[|seg| + 1..] == rest[1..];
    }
  }

  lemma LeadingDelimiter(delim: char, s: string)
    requires s != "" && s[0] == delim
    ensures Segments(s, delim) == Segments(s[1..], delim)
  {
    if |s| == 1 {
      assert s[1..] == "" && Segments(s, delim) == [] + [];
    } else {
      assert [] + Segments(s[1..], delim) == Segments(s[1..], delim);
    }
  }

  lemma {:induction false} SegmentsOfJoined(segs: seq<string>, delim: char)
    requires Clean(segs, delim)
    ensures Segments(Joined(segs, delim), delim) == segs
    decreases |segs|
  {
    if segs != [] {
      SegmentsOfJoined(segs[1..], delim);
      JoinStep(segs[0], delim, Joined(segs[1..], delim));
      assert [segs[0]] + segs[1..] == segs;
    }
  }

  lemma JoinStep(seg: string, delim: char, rest: string)
    requires seg != "" && delim !in seg && (rest != "" ==> rest[0] == delim)
    ensures Segments([delim] + seg + rest, delim) == [seg] + Segments(rest, delim)
  {
    var s, t := [delim] + seg + rest, seg + rest;
    DropFirst(delim, seg, rest);
    assert Segments(s, delim) == Segments(t, delim) by { LeadingDelimiter(delim, s); }
    assert Segments(t, delim) == [seg] + Segments(rest, delim) by { OneSegment(seg, delim, rest); }
  }

  lemma DropFirst(delim: char, seg: string, rest: string)
    ensures ([delim] + seg + rest)[1..] == seg + rest
  {
  }

  /** The part before the first `?`. */
  function UriPath(uri: string): string {
    uri[..Find(uri, '?')]
  }

  /** The part after the first `?`. */
  function UriQuery(uri: string): Option<string> {
    var i := Find(uri, '?');
    if i == |uri| then None else Some(uri[i + 1..])
  }

  function StripSlash(path: string): string {
    if path != "" && path[0] == '/' then path[1..] else path
  }

  function PathSegments(uri: string): seq<string> {
    Segments(StripSlash(UriPath(uri)), '/')
  }

  function QuerySegments(uri: string): seq<string> {
    match UriQuery(uri) case None => [] case Some(q) => Segments(q, '&')
  }

  /** The segments of a URI put together from clean segments are those segments. */
  lemma UriRoundTrip(path: seq<string>, query: seq<string>)
    requires Clean(path, '/') && Clean(path, '?') && Clean(query, '&')
    ensures var uri := Joined(path, '/') + "?" + Joined(query, '&');
      PathSegments(uri) == path && QuerySegments(uri) == query
  {
    var p, q := Joined(path, '/'), Joined(query, '&');
    var uri := p + "?" + q;
    NotInJoined(path, '?', '/');
    assert uri == p + ("?" + q);
    FindAt(p, '?', "?" + q);
    assert uri[..|p|] == p && uri[|p| + 1..] == q;
    SegmentsOfJoined(path, '/');
    SegmentsOfJoined(query, '&');
    if p != "" { LeadingDelimiter('/', p); }
  }

  lemma {:induction false} NotInJoined(segs: seq<string>, c: char, delim: char)
    requires Clean(segs, c) && c != delim
    ensures c !in Joined(segs, delim)
    decreases |segs|
  {
    if segs != [] { NotInJoined(segs[1..], c, delim); }
  }

  // ---------------------------------------------------------------- the options of a request

  datatype Request = Request(
    method_: Method, msgId: u16, token: byte, uri: string, contentFormat: Option<u16>, accept: Option<u16>,
    block1: Option<Block>, block2: Block, payload: seq<byte>)

  function TextOpts(num: u16, segs: seq<string>): (r: seq<Opt>)
    ensures |r| == |segs|
  {
    if segs == [] then [] else [Opt(num, Utf8.Encode(segs[0]))] + TextOpts(num, segs[1..])
  }

  function UintOpt(num: u16, val: Option<u32>): seq<Opt> {
    match val case None => [] case Some(n) => [Opt(num, EncodeUint(n))]
  }

  function BlockVal(b: Option<Block>): Option<u32> {
    match b case None => None case Some(x) => Some(EncodeBlock(x))
  }

  function Widen(n: Option<u16>): Option<u32> {
    match n case None => None case Some(x) => Some(x)
  }

  /** Options in ascending order; Block2 is always there, with its more flag cleared. */
  function RequestOpts(p: Request): seq<Opt> {
    TextOpts(OPT_URI_PATH, PathSegments(p.uri)) + (UintOpt(OPT_CONTENT_FORMAT, Widen(p.contentFormat))
    + (TextOpts(OPT_URI_QUERY, QuerySegments(p.uri)) + NegotiationOpts(p)))
  }

  function NegotiationOpts(p: Request): seq<Opt> {
    UintOpt(OPT_ACCEPT, Widen(p.accept))
    + (UintOpt(OPT_BLOCK2, Some(EncodeBlock(p.block2.(more := false)))) + UintOpt(OPT_BLOCK1, BlockVal(p.block1)))
  }

  /** Every option is numbered `num`. */
  predicate AllNum(opts: seq<Opt>, num: u16) {
    forall i :: 0 <= i < |opts| ==> opts[i].num == num
  }

  lemma {:induction false} OrderedAfter(prev: u16, a: seq<Opt>, num: u16, b: seq<Opt>)
    requires prev <= num && AllNum(a, num) && Ordered(num, b)
    ensures Ordered(prev, a + b)
    decreases |a|
  {
    if a == [] {
      assert a + b == b;
    } else {
      OrderedAfter(num, a[1..], num, b);
      assert (a + b)[1..] == a[1..] + b;
    }
  }

  lemma {:induction false} TextOptsNum(num: u16, segs: seq<string>)
    ensures AllNum(TextOpts(num, segs), num)
    decreases |segs|
  {
    if segs != [] { TextOptsNum(num, segs[1..]); }
  }

  lemma RequestOptsOrdered(p: Request)
    ensures Ordered(0, RequestOpts(p))
  {
    var path, query := TextOpts(OPT_URI_PATH, PathSegments(p.uri)), TextOpts(OPT_URI_QUERY, QuerySegments(p.uri));
    TextOptsNum(OPT_URI_PATH, PathSegments(p.uri));
    TextOptsNum(OPT_URI_QUERY, QuerySegments(p.uri));
    var cf, accept := UintOpt(OPT_CONTENT_FORMAT, Widen(p.contentFormat)), UintOpt(OPT_ACCEPT, Widen(p.accept));
    var b2 := UintOpt(OPT_BLOCK2, Some(EncodeBlock(p.block2.(more := false))));
    var b1 := UintOpt(OPT_BLOCK1, BlockVal(p.block1));
    OrderedAfter(OPT_BLOCK2, b1, OPT_BLOCK1, []);
    assert b1 + [] == b1;
    OrderedAfter(OPT_ACCEPT, b2, OPT_BLOCK2, b1);
    OrderedAfter(OPT_URI_QUERY, accept, OPT_ACCEPT, b2 + b1);
    OrderedAfter(OPT_CONTENT_FORMAT, query, OPT_URI_QUERY, accept + (b2 + b1));
    OrderedAfter(OPT_URI_PATH, cf, OPT_CONTENT_FORMAT, query + (accept + (b2 + b1)));
    OrderedAfter(0, path, OPT_URI_PATH, cf + (query + (accept + (b2 + b1))));
  }

  function RequestHead(p: Request): seq<byte> {
    [VERSION * 64 + 1, MethodCode(p.method_), p.msgId / 256, p.msgId % 256, p.token]
  }

  /** The wire form of a request. */
  function RequestWire(p: Request): seq<byte> {
    RequestOptsOrdered(p);
    RequestHead(p) + (RenderOpts(OptHeader, 0, RequestOpts(p)) + RenderPayload(p.payload))
  }

  // ---------------------------------------------------------------- parsing a message

  datatype Parsed = Parsed(
    msgType: MsgType, code: byte, msgId: u16, contentFormat: Option<u16>,
    block1: Option<Block>, block2: Option<Block>, payload: seq<byte>)

  function TypeOfBits(b: nat): MsgType {
    if b % 4 == 0 then Con else if b % 4 == 1 then Non else if b % 4 == 2 then Ack else Rst
  }

  /** The options the parser keeps; a later one replaces an earlier one. */
  datatype Slots = Slots(contentFormat: Option<u16>, block1: Option<Block>, block2: Option<Block>)

  function Keep(s: Slots, o: Opt): Slots {
    if o.num == OPT_CONTENT_FORMAT then s.(contentFormat := Some(DecodeUint(o.val) % 0x1_0000))
    else if o.num == OPT_BLOCK2 then s.(block2 := Some(DecodeBlock(DecodeUint(o.val))))
    else if o.num == OPT_BLOCK1 then s.(block1 := Some(DecodeBlock(DecodeUint(o.val))))
    else s
  }

  const NO_SLOTS := Slots(None, None, None)

  function Assemble(msg: seq<byte>, tail: Outcome<Tail>): Outcome<Parsed>
    requires |msg| >= 4
  {
    match tail
    case ParseError => ParseError
    case Overflow => Overflow
    case Done(t) =>
      var s := Fold(Keep, NO_SLOTS, t.opts);
      Done(Parsed(TypeOfBits(msg[0] / 16), msg[1], 256 * (msg[2] as int) + msg[3], s.contentFormat, s.block1, s.block2, t.payload))
  }

  /** What parsing a message yields. */
  function ParseMessage(msg: seq<byte>): Outcome<Parsed> {
    if |msg| < 4 || msg[0] / 64 != VERSION then ParseError
    else if msg[0] % 16 > 8 || 4 + msg[0] % 16 > |msg| then ParseError
    else Assemble(msg, ReadTail(msg, 4 + msg[0] % 16, 0))
  }

  /** The options and payload of a message are read back exactly when every URI segment fits a 16-bit length. */
  lemma OptionsRoundTrip(p: Request)
    ensures ReadTail(RequestWire(p), 5, 0) == Done(Tail(RequestOpts(p), p.payload)) <==> Short(RequestOpts(p))
  {
    RequestOptsOrdered(p);
    TailRoundTrip(RequestWire(p), RequestHead(p), Tail(RequestOpts(p), p.payload));
  }

  lemma TailRoundTrip(msg: seq<byte>, head: seq<byte>, t: Tail)
    requires Ordered(0, t.opts) && msg == head + (RenderOpts(OptHeader, 0, t.opts) + RenderPayload(t.payload))
    ensures ReadTail(msg, |head|, 0) == Done(t) <==> Short(t.opts)
  {
    assert Fills(msg, |head|, |msg|, RenderOpts(OptHeader, 0, t.opts) + RenderPayload(t.payload));
    if Short(t.opts) {
      TailComplete(msg, |head|, 0, t);
    } else if ReadTail(msg, |head|, 0).Done? {
      TailSound(msg, |head|, 0);
    }
  }

  lemma {:induction false} KeepTexts(s: Slots, num: u16, segs: seq<string>)
    requires num == OPT_URI_PATH || num == OPT_URI_QUERY
    ensures Fold(Keep, s, TextOpts(num, segs)) == s
    decreases |segs|
  {
    if segs != [] { KeepTexts(s, num, segs[1..]); }
  }

  lemma KeepUint(s: Slots, num: u16, val: Option<u32>)
    ensures Fold(Keep, s, UintOpt(num, val)) == match val case None => s case Some(n) => Keep(s, Opt(num, EncodeUint(n)))
  {
    match val
    case None =>
    case Some(n) => FoldOne(Keep, s, Opt(num, EncodeUint(n)));
  }

  /** Block numbers and size exponents that the option value can carry. */
  predicate Carries(b: Block) {
    b.num < 0x1000_0000 && b.szx < 8
  }

  lemma KeepRequest(p: Request)
    requires Carries(p.block2) && (p.block1.Some? ==> Carries(p.block1.value))
    ensures Fold(Keep, NO_SLOTS, RequestOpts(p)) == Slots(p.contentFormat, p.block1, Some(p.block2.(more := false)))
  {
    var path, query := TextOpts(OPT_URI_PATH, PathSegments(p.uri)), TextOpts(OPT_URI_QUERY, QuerySegments(p.uri));
    var cf, accept := UintOpt(OPT_CONTENT_FORMAT, Widen(p.contentFormat)), UintOpt(OPT_ACCEPT, Widen(p.accept));
    var b2 := UintOpt(OPT_BLOCK2, Some(EncodeBlock(p.block2.(more := false))));
    var b1 := UintOpt(OPT_BLOCK1, BlockVal(p.block1));
    var s0, s1 := NO_SLOTS, NO_SLOTS.(contentFormat := p.contentFormat);
    var s2 := s1.(block2 := Some(p.block2.(more := false)));
    FoldConcat(Keep, s0, path, cf + (query + (accept + (b2 + b1))));
    KeepTexts(s0, OPT_URI_PATH, PathSegments(p.uri));
    FoldConcat(Keep, s0, cf, query + (accept + (b2 + b1)));
    KeepContentFormat(s0, p.contentFormat);
    FoldConcat(Keep, s1, query, accept + (b2 + b1));
    KeepTexts(s1, OPT_URI_QUERY, QuerySegments(p.uri));
    FoldConcat(Keep, s1, accept, b2 + b1);
    KeepUint(s1, OPT_ACCEPT, Widen(p.accept));
    FoldConcat(Keep, s1, b2, b1);
    KeepBlock2(s1, p.block2.(more := false));
    KeepBlock1(s2, p.block1);
  }

  lemma KeepContentFormat(s: Slots, cf: Option<u16>)
    requires s.contentFormat == None
    ensures Fold(Keep, s, UintOpt(OPT_CONTENT_FORMAT, Widen(cf))) == s.(contentFormat := cf)
  {
    KeepUint(s, OPT_CONTENT_FORMAT, Widen(cf));
    if cf.Some? { UintRoundTrip(cf.value); }
  }

  lemma KeepBlock2(s: Slots, b: Block)
    requires Carries(b)
    ensures Fold(Keep, s, UintOpt(OPT_BLOCK2, Some(EncodeBlock(b)))) == s.(block2 := Some(b))
  {
    KeepUint(s, OPT_BLOCK2, Some(EncodeBlock(b)));
    UintRoundTrip(EncodeBlock(b));
    BlockRoundTrip(b);
  }

  lemma KeepBlock1(s: Slots, b: Option<Block>)
    requires s.block1 == None && (b.Some? ==> Carries(b.value))
    ensures Fold(Keep, s, UintOpt(OPT_BLOCK1, BlockVal(b))) == s.(block1 := b)
  {
    KeepUint(s, OPT_BLOCK1, BlockVal(b));
    if b.Some? {
      UintRoundTrip(EncodeBlock(b.value));
      BlockRoundTrip(b.value);
    }
  }

  /** Parsing an encoded request gives back its code, message id, Content-Format, blocks and payload. */
  lemma RequestRoundTrip(p: Request)
    requires Short(RequestOpts(p)) && Carries(p.block2) && (p.block1.Some? ==> Carries(p.block1.value))
    ensures ParseMessage(RequestWire(p)) == Done(Parsed(
      Con, MethodCode(p.method_), p.msgId, p.contentFormat, p.block1, Some(p.block2.(more := false)), p.payload))
  {
    RequestOptsOrdered(p);
    KeepRequest(p);
    WireParsed(p, RequestOpts(p), Slots(p.contentFormat, p.block1, Some(p.block2.(more := false))));
  }

  lemma WireParsed(p: Request, opts: seq<Opt>, s: Slots)
    requires OptsOk(0, opts) && Fold(Keep, NO_SLOTS, opts) == s
    ensures ParseMessage(RequestHead(p) + (RenderOpts(OptHeader, 0, opts) + RenderPayload(p.payload))) == Done(Parsed(
      Con, MethodCode(p.method_), p.msgId, s.contentFormat, s.block1, s.block2, p.payload))
  {
    var body := RenderOpts(OptHeader, 0, opts) + RenderPayload(p.payload);
    var msg := RequestHead(p) + body;
    TailRoundTrip(msg, RequestHead(p), Tail(opts, p.payload));
    HeadParsed(msg, p, body, Tail(opts, p.payload), s);
  }

  lemma HeadParsed(msg: seq<byte>, p: Request, body: seq<byte>, t: Tail, s: Slots)
    requires msg == RequestHead(p) + body && ReadTail(msg, 5, 0) == Done(t) && Fold(Keep, NO_SLOTS, t.opts) == s
    ensures ParseMessage(msg) == Done(Parsed(
      Con, MethodCode(p.method_), p.msgId, s.contentFormat, s.block1, s.block2, t.payload))
  {
    assert msg[0] == 65;
  }

  /**
   * The bytes behind the token are accepted exactly when they render some ordered list of options and a payload, and
   * these are then the ones read: no two messages have the same options and payload.
   */
  lemma AcceptedIffRendered(msg: seq<byte>, pos: nat, t: Tail)
    requires pos <= |msg|
    ensures ReadTail(msg, pos, 0) == Done(t) <==>
      OptsOk(0, t.opts) && Fills(msg, pos, |msg|, RenderOpts(OptHeader, 0, t.opts) + RenderPayload(t.payload))
  {
    if OptsOk(0, t.opts) && Fills(msg, pos, |msg|, RenderOpts(OptHeader, 0, t.opts) + RenderPayload(t.payload)) {
      TailComplete(msg, pos, 0, t);
    } else if ReadTail(msg, pos, 0) == Done(t) {
      TailSound(msg, pos, 0);
      assert false;
    }
  }

  /** A received message can make the 16-bit option arithmetic overflow: two deltas of 40000. */
  lemma OverflowIsReachable()
    ensures ParseMessage([0x60, 0x45, 0, 1, 0xE0, 0x9B, 0x33, 0xE0, 0x9B, 0x33]) == Overflow
  {
    var msg: seq<byte> := [0x60, 0x45, 0, 1, 0xE0, 0x9B, 0x33, 0xE0, 0x9B, 0x33];
    assert ReadExt(msg, 5, 14) == ExtOk(40000, 7);
    assert ReadOpt(msg, 4, 0) == OptOk(Opt(40000, []), 7);
    assert ReadExt(msg, 8, 14) == ExtOk(40000, 10);
    assert ReadOpt(msg, 7, 40000) == OptOverflow;
    assert ReadTail(msg, 7, 40000) == Overflow;
  }
}
