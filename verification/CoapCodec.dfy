// The option writer, the request encoder and the message parser as the source runs them, proved against the
// wire form and the option reader.

module CoapCodec {
  import opened Bytes
  import opened CoapMessage
  import opened CoapRequest
  import Utf8

  function LastNum(prev: u16, opts: seq<Opt>): u16 {
    if opts == [] then prev else opts[|opts| - 1].num
  }

  lemma {:induction false} RenderSnoc(form: HeaderForm, prev: u16, opts: seq<Opt>, o: Opt)
    requires Ordered(prev, opts) && LastNum(prev, opts) <= o.num
    ensures Ordered(prev, opts + [o])
    ensures RenderOpts(form, prev, opts + [o]) == RenderOpts(form, prev, opts) + OptBytes(form, o.num - LastNum(prev, opts), o.val)
    decreases |opts|
  {
    hide OptBytes;
    if opts == [] {
      assert [] + [o] == [o];
      RenderOne(form, prev, o, []);
    } else {
      var first, rest := opts[0], opts[1..];
      RenderSnoc(form, first.num, rest, o);
      assert opts + [o] == [first] + (rest + [o]);
      assert [first] + rest == opts;
      RenderOne(form, prev, first, rest + [o]);
      RenderOne(form, prev, first, rest);
      SeqAssoc(OptBytes(form, first.num - prev, first.val), RenderOpts(form, first.num, rest),
               OptBytes(form, o.num - LastNum(prev, opts), o.val));
    }
  }

  lemma RenderOne(form: HeaderForm, prev: u16, o: Opt, rest: seq<Opt>)
    requires prev <= o.num && Ordered(o.num, rest)
    ensures Ordered(prev, [o] + rest)
    ensures RenderOpts(form, prev, [o] + rest) == OptBytes(form, o.num - prev, o.val) + RenderOpts(form, o.num, rest)
    ensures rest == [] ==> RenderOpts(form, prev, [o]) == [] + OptBytes(form, o.num - prev, o.val) && Ordered(prev, [o])
  {
    assert ([o] + rest)[1..] == rest;
    if rest == [] { assert [o] + rest == [o]; }
  }

  ghost predicate Rendering(form: HeaderForm, head: seq<byte>, opts: seq<Opt>, buf: seq<byte>, prev: u16) {
    Ordered(0, opts) && prev == LastNum(0, opts) && buf == head + RenderOpts(form, 0, opts)
  }

  lemma RenderingSnoc(form: HeaderForm, head: seq<byte>, opts: seq<Opt>, buf: seq<byte>, prev: u16, o: Opt, optHead: seq<byte>)
    requires Rendering(form, head, opts, buf, prev) && prev <= o.num && optHead == form(o.num - prev, |o.val| % 0x1_0000)
    ensures Rendering(form, head, opts + [o], buf + optHead + o.val, o.num)
  {
    RenderSnoc(form, 0, opts, o);
    Grown(head, RenderOpts(form, 0, opts), optHead, o.val);
  }

  class Writer {
    var buf: seq<byte>
    var prevOpt: u16
    ghost var head: seq<byte>
    ghost var written: seq<Opt>

    /** The buffer holds a fixed head and the rendering of the options written so far. */
    ghost predicate Valid()
      reads this
    {
      Rendering(OptHeader, head, written, buf, prevOpt)
    }

    constructor ()
      ensures Valid() && buf == [] && prevOpt == 0 && head == [] && written == []
    {
      buf, prevOpt, head, written := [], 0, [], [];
    }

    /** Bytes in front of the options. */
    method PushHead(bs: seq<byte>)
      requires Valid() && written == []
      modifies `buf, `head
      ensures Valid() && head == old(head) + bs
    {
      buf := buf + bs;
      head := head + bs;
      assert buf == head + [];
    }

    method PushOptHeader(delta: u16, length: u16)
      modifies `buf
      ensures buf == old(buf) + OptHeader(delta, length)
    {
      var deltaNibble := if delta < 13 then delta else if delta < 269 then 13 else 14;
      var lengthNibble := if length < 13 then length else if length < 269 then 13 else 14;
      buf := buf + [16 * deltaNibble + lengthNibble];
      if deltaNibble == 13 {
        buf := buf + [delta - 13];
      } else if deltaNibble == 14 {
        buf := buf + [(delta - 269) / 256, (delta - 269) % 256];
      }
      if lengthNibble == 13 {
        buf := buf + [length - 13];
      } else if lengthNibble == 14 {
        buf := buf + [(length - 269) / 256, (length - 269) % 256];
      }
    }

    /** Append one option; its number must not be below the previous one's. */
    method Put(num: u16, val: seq<byte>)
      requires Valid() && prevOpt <= num
      modifies `buf, `prevOpt, `written
      ensures Valid() && prevOpt == num && written == old(written) + [Opt(num, val)]
    {
      var delta := num - prevOpt;
      RenderingSnoc(OptHeader, head, written, buf, prevOpt, Opt(num, val), OptHeader(delta, |val| % 0x1_0000));
      PushOptHeader(delta, |val| % 0x1_0000);
      buf := buf + val;
      prevOpt := num;
      written := written + [Opt(num, val)];
    }

    method PutUint(num: u16, val: u32)
      requires Valid() && prevOpt <= num
      modifies `buf, `prevOpt, `written
      ensures Valid() && prevOpt == num && written == old(written) + UintOpt(num, Some(val))
    {
      Put(num, EncodeUint(val));
    }

    method PutBlock(num: u16, block: Block)
      requires Valid() && prevOpt <= num
      modifies `buf, `prevOpt, `written
      ensures Valid() && prevOpt == num && written == old(written) + UintOpt(num, Some(EncodeBlock(block)))
    {
      Put(num, EncodeUint(EncodeBlock(block)));
    }

    /** One option for each segment. */
    method PutSegments(num: u16, segs: seq<string>)
      requires Valid() && prevOpt <= num
      modifies `buf, `prevOpt, `written
      ensures Valid() && written == old(written) + TextOpts(num, segs)
      ensures prevOpt <= num
    {
      assert written + [] == written;
      for i := 0 to |segs|
        invariant Valid() && prevOpt <= num && written == old(written) + TextOpts(num, segs[..i])
      {
        Put(num, Utf8.Encode(segs[i]));
        TextOptsSnoc(num, segs[..i], segs[i]);
        assert segs[..i] + [segs[i]] == segs[..i + 1];
        SeqAssoc(old(written), TextOpts(num, segs[..i]), [Opt(num, Utf8.Encode(segs[i]))]);
      }
      assert segs[..|segs|] == segs;
    }
  }

  lemma Grown(head: seq<byte>, opts: seq<byte>, optHead: seq<byte>, val: seq<byte>)
    ensures head + opts + optHead + val == head + (opts + (optHead + val))
  {
  }

  lemma {:induction false} TextOptsSnoc(num: u16, segs: seq<string>, seg: string)
    ensures TextOpts(num, segs + [seg]) == TextOpts(num, segs) + [Opt(num, Utf8.Encode(seg))]
    decreases |segs|
  {
    if segs == [] {
      assert [] + [seg] == [seg] && [seg][1..] == [];
    } else {
      assert (segs + [seg])[1..] == segs[1..] + [seg];
      TextOptsSnoc(num, segs[1..], seg);
    }
  }

  /** Encode one outgoing request. */
  method EncodeRequest(p: Request) returns (wire: seq<byte>)
    ensures wire == RequestWire(p)
  {
    var w := new Writer();
    w.PushHead([VERSION * 64 + 1]);
    w.PushHead([MethodCode(p.method_)]);
    w.PushHead([p.msgId / 256, p.msgId % 256]);
    w.PushHead([p.token]);
    assert w.head == RequestHead(p);
    PutOptions(p, w);
    wire := w.buf;
    if p.payload != [] { wire := wire + [PAYLOAD_MARKER] + p.payload; }
    Appended(w.head, RenderOpts(OptHeader, 0, w.written), p.payload);
  }

  method PutOptions(p: Request, w: Writer)
    requires w.Valid() && w.written == [] && w.prevOpt == 0
    modifies w
    ensures w.Valid() && w.head == old(w.head) && w.written == RequestOpts(p)
  {
    PutResource(p, w);
    ghost var front := w.written;
    PutNegotiation(p, w);
    ghost var path, query := TextOpts(OPT_URI_PATH, PathSegments(p.uri)), TextOpts(OPT_URI_QUERY, QuerySegments(p.uri));
    ThreeThen(path, UintOpt(OPT_CONTENT_FORMAT, Widen(p.contentFormat)), query, w.written[|front|..], front, w.written);
  }

  /** Uri-Path, Content-Format and Uri-Query. */
  method PutResource(p: Request, w: Writer)
    requires w.Valid() && w.written == [] && w.prevOpt == 0
    modifies w`buf, w`prevOpt, w`written
    ensures w.Valid() && w.prevOpt <= OPT_URI_QUERY
    ensures w.written == TextOpts(OPT_URI_PATH, PathSegments(p.uri))
      + UintOpt(OPT_CONTENT_FORMAT, Widen(p.contentFormat)) + TextOpts(OPT_URI_QUERY, QuerySegments(p.uri))
  {
    var path, query := PathSegments(p.uri), QuerySegments(p.uri);
    PutParts(path, Widen(p.contentFormat), UriQuery(p.uri).Some?, query, w);
  }

  method PutParts(path: seq<string>, format: Option<u32>, hasQuery: bool, query: seq<string>, w: Writer)
    requires w.Valid() && w.written == [] && w.prevOpt == 0 && (!hasQuery ==> query == [])
    modifies w`buf, w`prevOpt, w`written
    ensures w.Valid() && w.prevOpt <= OPT_URI_QUERY
    ensures w.written == TextOpts(OPT_URI_PATH, path) + UintOpt(OPT_CONTENT_FORMAT, format) + TextOpts(OPT_URI_QUERY, query)
  {
    w.PutSegments(OPT_URI_PATH, path);
    PutOptional(w, OPT_CONTENT_FORMAT, format);
    if hasQuery { w.PutSegments(OPT_URI_QUERY, query); }
  }

  /** Accept, Block2 and Block1. */
  method PutNegotiation(p: Request, w: Writer)
    requires w.Valid() && w.prevOpt <= OPT_URI_QUERY
    modifies w`buf, w`prevOpt, w`written
    ensures w.Valid()
    ensures w.written == old(w.written) + NegotiationOpts(p)
  {
    PutOptional(w, OPT_ACCEPT, Widen(p.accept));
    w.PutBlock(OPT_BLOCK2, Block(p.block2.num, false, p.block2.szx));
    PutOptional(w, OPT_BLOCK1, BlockVal(p.block1));
    FourParts(old(w.written), UintOpt(OPT_ACCEPT, Widen(p.accept)),
              UintOpt(OPT_BLOCK2, Some(EncodeBlock(p.block2.(more := false)))), UintOpt(OPT_BLOCK1, BlockVal(p.block1)));
  }

  method PutOptional(w: Writer, num: u16, val: Option<u32>)
    requires w.Valid() && w.prevOpt <= num
    modifies w`buf, w`prevOpt, w`written
    ensures w.Valid() && w.written == old(w.written) + UintOpt(num, val) && w.prevOpt <= num
  {
    assert w.written + [] == w.written;
    if val.Some? { w.PutUint(num, val.value); }
  }

  lemma ThreeThen<T>(a: seq<T>, b: seq<T>, c: seq<T>, rest: seq<T>, front: seq<T>, all: seq<T>)
    requires front == a + b + c && |front| <= |all| && all == front + rest
    ensures all == a + (b + (c + rest))
  {
  }

  lemma FourParts<T>(a: seq<T>, b: seq<T>, c: seq<T>, d: seq<T>)
    ensures a + b + c + d == a + (b + (c + d))
  {
  }

  lemma Appended(head: seq<byte>, opts: seq<byte>, payload: seq<byte>)
    ensures head + opts + [PAYLOAD_MARKER] + payload == head + (opts + ([PAYLOAD_MARKER] + payload))
    ensures head + opts == head + (opts + [])
  {
  }

  // ---------------------------------------------------------------- the parser

  method ReadExtended(msg: seq<byte>, pos: nat, nibble: nat) returns (r: ExtRead)
    requires pos <= |msg| && nibble < 16
    ensures r == ReadExt(msg, pos, nibble)
  {
    if nibble == 13 {
      if pos >= |msg| { return ExtError; }
      return ExtOk(msg[pos] as int + 13, pos + 1);
    } else if nibble == 14 {
      if pos + 1 >= |msg| { return ExtError; }
      var n := 256 * (msg[pos] as int) + msg[pos + 1] + 269;
      if n >= 0x1_0000 { return ExtOverflow; }
      return ExtOk(n, pos + 2);
    } else if nibble == 15 {
      return ExtError;
    }
    return ExtOk(nibble, pos);
  }

  lemma FrontOne(opts: seq<Opt>, o: Opt, rest: Outcome<Tail>)
    ensures Front([], rest) == rest && Front(opts, Front([o], rest)) == Front(opts + [o], rest)
  {
    if rest.Done? {
      assert [] + rest.value.opts == rest.value.opts;
      assert opts + ([o] + rest.value.opts) == opts + [o] + rest.value.opts;
    }
  }

  /** Decode one received message. */
  method Parse(msg: seq<byte>) returns (r: Outcome<Parsed>)
    ensures r == ParseMessage(msg)
  {
    hide ReadTail;
    if |msg| < 4 { return ParseError; }
    if msg[0] / 64 % 4 != VERSION { return ParseError; }
    var msgType := TypeOfBits(msg[0] / 16);
    var tkl := msg[0] % 16;
    var msgId := 256 * (msg[2] as int) + msg[3];
    if tkl > 8 || 4 + tkl > |msg| { return ParseError; }
    var tail, slots := ParseOptions(msg, 4 + tkl);
    match tail
    case ParseError => return ParseError;
    case Overflow => return Overflow;
    case Done(payload) =>
      return Done(Parsed(msgType, msg[1], msgId, slots.contentFormat, slots.block1, slots.block2, payload));
  }

  /** The loop over options: the slots it fills and the payload behind the marker. */
  method ParseOptions(msg: seq<byte>, start: nat) returns (r: Outcome<seq<byte>>, slots: Slots)
    requires start <= |msg|
    ensures match ReadTail(msg, start, 0)
      case ParseError => r == ParseError
      case Overflow => r == Overflow
      case Done(t) => r == Done(t.payload) && slots == Fold(Keep, NO_SLOTS, t.opts)
  {
    var pos, prev: u16 := start, 0;
    slots := NO_SLOTS;
    ghost var seen: seq<Opt> := [];
    FrontOne([], Opt(0, []), ReadTail(msg, start, 0));
    while pos < |msg|
      invariant start <= pos <= |msg| && slots == Fold(Keep, NO_SLOTS, seen)
      invariant ReadTail(msg, start, 0) == Front(seen, ReadTail(msg, pos, prev))
    {
      if msg[pos] == PAYLOAD_MARKER {
        pos := pos + 1;
        if pos >= |msg| { return ParseError, slots; }
        assert seen + [] == seen;
        return Done(msg[pos..]), slots;
      }
      var o := NextOption(msg, pos, prev);
      match o
      case OptError => return ParseError, slots;
      case OptOverflow => return Overflow, slots;
      case OptOk(opt, end) =>
        FrontOne(seen, opt, ReadTail(msg, end, opt.num));
        FoldConcat(Keep, NO_SLOTS, seen, [opt]);
        FoldOne(Keep, slots, opt);
        if opt.num == OPT_CONTENT_FORMAT {
          slots := slots.(contentFormat := Some(DecodeUint(opt.val) % 0x1_0000));
        } else if opt.num == OPT_BLOCK2 {
          slots := slots.(block2 := Some(DecodeBlock(DecodeUint(opt.val))));
        } else if opt.num == OPT_BLOCK1 {
          slots := slots.(block1 := Some(DecodeBlock(DecodeUint(opt.val))));
        }
        seen := seen + [opt];
        pos, prev := end, opt.num;
    }
    assert seen + [] == seen;
    return Done([]), slots;
  }

  method NextOption(msg: seq<byte>, at: nat, prev: u16) returns (r: OptRead)
    requires at < |msg|
    ensures r == ReadOpt(msg, at, prev)
  {
    var delta := ReadExtended(msg, at + 1, msg[at] / 16);
    match delta
    case ExtError => return OptError;
    case ExtOverflow => return OptOverflow;
    case ExtOk(d, mid) =>
      var len := ReadExtended(msg, mid, msg[at] % 16);
      match len
      case ExtError => return OptError;
      case ExtOverflow => return OptOverflow;
      case ExtOk(n, pos) =>
        if pos + n > |msg| { return OptError; }
        if prev + d >= 0x1_0000 { return OptOverflow; }
        return OptOk(Opt(prev + d, msg[pos..pos + n]), pos + n);
  }
}
