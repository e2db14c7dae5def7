// CoAP messages (RFC 7252 section 3): the option encoding with its three delta/length forms, requests, and the parser.

module CoapMessage {
  import opened Bytes
  import opened BigEndian

  const VERSION: nat := 1
  const OPT_URI_PATH: u16 := 11
  const OPT_CONTENT_FORMAT: u16 := 12
  const OPT_URI_QUERY: u16 := 15
  const OPT_ACCEPT: u16 := 17
  const OPT_BLOCK2: u16 := 23
  const OPT_BLOCK1: u16 := 27
  const PAYLOAD_MARKER: byte := 0xFF
  const RESPONSE_CONTINUE: byte := 2 * 32 + 31

  datatype MsgType = Con | Non | Ack | Rst

  datatype Method = Get | Post | Put | Delete | Fetch | Ipatch

  function MethodCode(m: Method): byte {
    match m case Get => 1 case Post => 2 case Put => 3 case Delete => 4 case Fetch => 5 case Ipatch => 7
  }

  // ---------------------------------------------------------------- block values

  datatype Block = Block(num: u32, more: bool, szx: byte)

  function BlockSize(szx: byte): nat
    requires szx < 8
  {
    16 * Shift(szx)
  }

  function Shift(k: nat): (r: nat)
    ensures r > 0
  {
    if k == 0 then 1 else 2 * Shift(k - 1)
  }

  function SzxForSize(size: u32): (r: Option<byte>)
    ensures r.Some? <==> exists k: byte :: k < 7 && size == BlockSize(k)
    ensures r.Some? ==> r.value < 7 && BlockSize(r.value) == size
  {
    BlockSizes();
    match size
    case 16 => Some(0)
    case 32 => Some(1)
    case 64 => Some(2)
    case 128 => Some(3)
    case 256 => Some(4)
    case 512 => Some(5)
    case 1024 => Some(6)
    case _ => None
  }

  lemma BlockSizes()
    ensures BlockSize(0) == 16 && BlockSize(1) == 32 && BlockSize(2) == 64 && BlockSize(3) == 128
    ensures BlockSize(4) == 256 && BlockSize(5) == 512 && BlockSize(6) == 1024 && BlockSize(7) == 2048
  {
    assert Shift(1) == 2 && Shift(2) == 4 && Shift(3) == 8 && Shift(4) == 16;
    assert Shift(5) == 32 && Shift(6) == 64 && Shift(7) == 128;
  }

  /** Shifting the number into place drops its four high bits. */
  function EncodeBlock(b: Block): u32 {
    16 * (b.num % 0x1000_0000) + (if b.more then 8 else 0) + b.szx % 8
  }

  function DecodeBlock(raw: u32): Block {
    Block(raw / 16, raw / 8 % 2 != 0, raw % 8)
  }

  /** A block value survives the wire exactly when its number has 28 bits and its size exponent three. */
  lemma BlockRoundTrip(b: Block)
    ensures DecodeBlock(EncodeBlock(b)) == b <==> b.num < 0x1000_0000 && b.szx < 8
  {
    BlockParts(b.num % 0x1000_0000, b.more, b.szx % 8, EncodeBlock(b));
  }

  lemma BlockParts(n: nat, more: bool, szx: nat, raw: int)
    requires szx < 8 && raw == 16 * n + (if more then 8 else 0) + szx
    ensures raw / 16 == n && (raw / 8 % 2 != 0 <==> more) && raw % 8 == szx
  {
    assert raw / 8 == 2 * n + (if more then 1 else 0);
  }

  // ---------------------------------------------------------------- unsigned option values

  /** The shortest big-endian form; zero is the empty string. */
  function EncodeUint(val: u32): seq<byte> {
    if val == 0 then []
    else if val <= 0xFF then ToBytes(val, 1)
    else if val <= 0xFFFF then ToBytes(val, 2)
    else if val <= 0xFF_FFFF then ToBytes(val, 3)
    else ToBytes(val, 4)
  }

  /** A value longer than four bytes reads as zero. */
  function DecodeUint(val: seq<byte>): u32 {
    ToFromBytes(val);
    Pow256Values();
    if 1 <= |val| <= 4 then FromBytes(val) else 0
  }

  /** Unsigned option values round trip, in the fewest bytes that can denote them. */
  lemma UintRoundTrip(n: u32)
    ensures DecodeUint(EncodeUint(n)) == n
    ensures forall bs :: DecodeUint(bs) == n && (n == 0 ==> bs != []) && |bs| <= 4 ==> |EncodeUint(n)| <= |bs|
  {
    Pow256Values();
    FromToBytes(n, |EncodeUint(n)|);
    forall bs | DecodeUint(bs) == n && |bs| <= 4 ensures |EncodeUint(n)| <= |bs| {
      ToFromBytes(bs);
    }
  }

  // ---------------------------------------------------------------- options

  datatype Opt = Opt(num: u16, val: seq<byte>)

  /** A delta or length as the option header's four bits show it. */
  function Nibble(n: u16): nat {
    if n < 13 then n else if n < 269 then 13 else 14
  }

  /** The extension bytes of a delta or length. */
  function Ext(n: u16): seq<byte> {
    if n < 13 then [] else if n < 269 then [n - 13] else [(n - 269) / 256, (n - 269) % 256]
  }

  function OptHeader(delta: u16, length: u16): seq<byte> {
    [16 * Nibble(delta) + Nibble(length)] + (Ext(delta) + Ext(length))
  }

  /** Option numbers never fall. */
  predicate Ordered(prev: u16, opts: seq<Opt>)
    decreases |opts|
  {
    opts == [] || (prev <= opts[0].num && Ordered(opts[0].num, opts[1..]))
  }

  /** Every value's length fits a u16. */
  predicate Short(opts: seq<Opt>) {
    forall i :: 0 <= i < |opts| ==> |opts[i].val| < 0x1_0000
  }

  predicate OptsOk(prev: u16, opts: seq<Opt>) {
    Ordered(prev, opts) && Short(opts)
  }

  /** How a delta and a length are written: OptHeader, wherever bytes matter. */
  type HeaderForm = (u16, u16) -> seq<byte>

  /** The cast of a length to u16 drops its high bits. */
  function OptBytes(form: HeaderForm, delta: u16, val: seq<byte>): seq<byte> {
    form(delta, |val| % 0x1_0000) + val
  }

  function RenderOpts(form: HeaderForm, prev: u16, opts: seq<Opt>): seq<byte>
    requires Ordered(prev, opts)
    decreases |opts|
  {
    if opts == [] then []
    else OptBytes(form, opts[0].num - prev, opts[0].val) + RenderOpts(form, opts[0].num, opts[1..])
  }

  function RenderPayload(payload: seq<byte>): seq<byte> {
    if payload == [] then [] else [PAYLOAD_MARKER] + payload
  }

  // ---------------------------------------------------------------- the parser

  /** A sum of u16 values that overflows stops a checked build and wraps in any other. */
  datatype Outcome<+T> = Done(value: T) | ParseError | Overflow

  datatype ExtRead = ExtOk(n: u16, end: nat) | ExtError | ExtOverflow

  function ReadExt(msg: seq<byte>, pos: nat, nibble: nat): (r: ExtRead)
    requires pos <= |msg|
    ensures r.ExtOk? ==> pos <= r.end <= |msg|
  {
    if nibble < 13 then ExtOk(nibble, pos)
    else if nibble == 13 then
      if pos >= |msg| then ExtError else ExtOk(msg[pos] as int + 13, pos + 1)
    else if nibble == 14 then
      if pos + 1 >= |msg| then ExtError
      else
        var n := 256 * (msg[pos] as int) + msg[pos + 1];
        if n + 269 >= 0x1_0000 then ExtOverflow else ExtOk(n + 269, pos + 2)
    else ExtError
  }

  datatype OptRead = OptOk(o: Opt, end: nat) | OptError | OptOverflow

  /** The option whose header byte stands at `pos`. */
  function ReadOpt(msg: seq<byte>, pos: nat, prev: u16): (r: OptRead)
    requires pos < |msg|
    ensures r.OptOk? ==> pos < r.end <= |msg|
  {
    match ReadExt(msg, pos + 1, msg[pos] / 16)
    case ExtError => OptError
    case ExtOverflow => OptOverflow
    case ExtOk(delta, mid) =>
      match ReadExt(msg, mid, msg[pos] % 16)
      case ExtError => OptError
      case ExtOverflow => OptOverflow
      case ExtOk(len, at) =>
        if at + len > |msg| then OptError
        else if prev + delta >= 0x1_0000 then OptOverflow
        else OptOk(Opt(prev + delta, msg[at..at + len]), at + len)
  }

  /** Options and payload, as they stand from some option boundary to the end of the message. */
  datatype Tail = Tail(opts: seq<Opt>, payload: seq<byte>)

  function ReadTail(msg: seq<byte>, pos: nat, prev: u16): Outcome<Tail>
    decreases |msg| - pos
  {
    if pos >= |msg| then Done(Tail([], []))
    else if msg[pos] == PAYLOAD_MARKER then
      if pos + 1 >= |msg| then ParseError else Done(Tail([], msg[pos + 1..]))
    else
      match ReadOpt(msg, pos, prev)
      case OptError => ParseError
      case OptOverflow => Overflow
      case OptOk(o, end) => Front([o], ReadTail(msg, end, o.num))
  }

  function Front(opts: seq<Opt>, rest: Outcome<Tail>): Outcome<Tail> {
    match rest case Done(t) => Done(Tail(opts + t.opts, t.payload)) case r => r
  }

  // ---------------------------------------------------------------- the option encoding is a bijection

  lemma ExtFound(msg: seq<byte>, pos: nat, end: nat, n: u16)
    requires Fills(msg, pos, end, Ext(n))
    ensures ReadExt(msg, pos, Nibble(n)) == ExtOk(n, end)
  {
    if 13 <= n < 269 {
      assert msg[pos..end][0] == msg[pos];
    } else if n >= 269 {
      assert msg[pos..end][0] == msg[pos] && msg[pos..end][1] == msg[pos + 1];
    }
  }

  lemma ExtSound(msg: seq<byte>, pos: nat, nibble: nat)
    requires pos <= |msg| && ReadExt(msg, pos, nibble).ExtOk?
    ensures var r := ReadExt(msg, pos, nibble); nibble == Nibble(r.n) && Fills(msg, pos, r.end, Ext(r.n))
  {
    var r := ReadExt(msg, pos, nibble);
  }

  lemma OptSound(msg: seq<byte>, pos: nat, prev: u16)
    requires pos < |msg| && ReadOpt(msg, pos, prev).OptOk?
    ensures var r := ReadOpt(msg, pos, prev);
      && prev <= r.o.num && |r.o.val| < 0x1_0000 && msg[pos] != PAYLOAD_MARKER
      && Fills(msg, pos, r.end, OptBytes(OptHeader, r.o.num - prev, r.o.val))
  {
    var d := ReadExt(msg, pos + 1, msg[pos] / 16);
    var l := ReadExt(msg, d.end, msg[pos] % 16);
    ExtSound(msg, pos + 1, msg[pos] / 16);
    ExtSound(msg, d.end, msg[pos] % 16);
    var r := ReadOpt(msg, pos, prev);
    HeaderFills(msg, pos, d.end, l.end, d.n, l.n);
    OptFills(OptHeader, msg, pos, l.end, r.end, d.n, r.o.val);
  }

  lemma OptFills(form: HeaderForm, msg: seq<byte>, pos: nat, at: nat, end: nat, delta: u16, val: seq<byte>)
    requires |val| < 0x1_0000 && Fills(msg, pos, at, form(delta, |val|)) && Fills(msg, at, end, val)
    ensures Fills(msg, pos, end, OptBytes(form, delta, val))
  {
    FillsThen(msg, pos, at, end, form(delta, |val|), val);
  }

  lemma HeaderFills(msg: seq<byte>, pos: nat, mid: nat, at: nat, delta: u16, len: u16)
    requires pos < |msg| && msg[pos] == 16 * Nibble(delta) + Nibble(len)
    requires Fills(msg, pos + 1, mid, Ext(delta)) && Fills(msg, mid, at, Ext(len))
    ensures Fills(msg, pos, at, OptHeader(delta, len))
  {
    FillsThen(msg, pos + 1, mid, at, Ext(delta), Ext(len));
    FillsThen(msg, pos, pos + 1, at, [msg[pos]], Ext(delta) + Ext(len));
  }

  lemma OptFound(msg: seq<byte>, pos: nat, end: nat, prev: u16, o: Opt)
    requires prev <= o.num && |o.val| < 0x1_0000
    requires Fills(msg, pos, end, OptBytes(OptHeader, o.num - prev, o.val))
    ensures pos < |msg| && msg[pos] != PAYLOAD_MARKER && ReadOpt(msg, pos, prev) == OptOk(o, end)
  {
    hide OptHeader;
    var head := OptHeader(o.num - prev, |o.val|);
    FillsSplit(msg, pos, end, head, o.val);
    var mid := HeaderFound(msg, pos, pos + |head|, o.num - prev, |o.val|);
  }

  lemma HeaderFound(msg: seq<byte>, pos: nat, at: nat, delta: u16, len: u16) returns (mid: nat)
    requires Fills(msg, pos, at, OptHeader(delta, len))
    ensures pos < mid <= at && msg[pos] != PAYLOAD_MARKER
    ensures ReadExt(msg, pos + 1, msg[pos] / 16) == ExtOk(delta, mid)
    ensures ReadExt(msg, mid, msg[pos] % 16) == ExtOk(len, at)
  {
    mid := pos + 1 + |Ext(delta)|;
    HeaderParts(msg, pos, at, 16 * Nibble(delta) + Nibble(len), Ext(delta), Ext(len));
    NibblesApart(Nibble(delta), Nibble(len));
    ExtFound(msg, pos + 1, mid, delta);
    ExtFound(msg, mid, at, len);
  }

  lemma HeaderParts(msg: seq<byte>, pos: nat, at: nat, first: byte, a: seq<byte>, b: seq<byte>)
    requires Fills(msg, pos, at, [first] + (a + b))
    ensures pos < |msg| && msg[pos] == first && Fills(msg, pos + 1, pos + 1 + |a|, a) && Fills(msg, pos + 1 + |a|, at, b)
  {
    FillsSplit(msg, pos, at, [first], a + b);
    FillsSplit(msg, pos + 1, at, a, b);
    assert msg[pos..pos + 1][0] == msg[pos];
  }

  lemma NibblesApart(high: nat, low: nat)
    requires low < 16
    ensures (16 * high + low) / 16 == high && (16 * high + low) % 16 == low
  {
  }

  /** Whatever the parser accepts is exactly the rendering of what it read. */
  lemma {:induction false} TailSound(msg: seq<byte>, pos: nat, prev: u16)
    requires pos <= |msg| && ReadTail(msg, pos, prev).Done?
    ensures var t := ReadTail(msg, pos, prev).value;
      OptsOk(prev, t.opts) && Fills(msg, pos, |msg|, RenderOpts(OptHeader, prev, t.opts) + RenderPayload(t.payload))
    decreases |msg| - pos
  {
    if pos == |msg| || msg[pos] == PAYLOAD_MARKER {
      PayloadSound(msg, pos, prev);
      return;
    }
    var o, end, rest := TailHead(msg, pos, prev);
    TailSound(msg, end, o.num);
    TailCons(OptHeader, msg, pos, end, prev, o, rest);
  }

  lemma TailHead(msg: seq<byte>, pos: nat, prev: u16) returns (o: Opt, end: nat, rest: Tail)
    requires pos < |msg| && msg[pos] != PAYLOAD_MARKER && ReadTail(msg, pos, prev).Done?
    ensures pos < end <= |msg| && prev <= o.num && |o.val| < 0x1_0000
    ensures Fills(msg, pos, end, OptBytes(OptHeader, o.num - prev, o.val)) && ReadTail(msg, end, o.num) == Done(rest)
    ensures ReadTail(msg, pos, prev) == Done(Tail([o] + rest.opts, rest.payload))
  {
    OptSound(msg, pos, prev);
    var r := ReadOpt(msg, pos, prev);
    o, end, rest := r.o, r.end, ReadTail(msg, r.end, r.o.num).value;
  }

  lemma PayloadSound(msg: seq<byte>, pos: nat, prev: u16)
    requires pos <= |msg| && ReadTail(msg, pos, prev).Done? && (pos < |msg| ==> msg[pos] == PAYLOAD_MARKER)
    ensures var t := ReadTail(msg, pos, prev).value;
      OptsOk(prev, t.opts) && Fills(msg, pos, |msg|, RenderOpts(OptHeader, prev, t.opts) + RenderPayload(t.payload))
  {
    var t := ReadTail(msg, pos, prev).value;
    assert t.opts == [] && RenderOpts(OptHeader, prev, t.opts) + RenderPayload(t.payload) == RenderPayload(t.payload);
  }

  lemma TailCons(form: HeaderForm, msg: seq<byte>, pos: nat, end: nat, prev: u16, o: Opt, rest: Tail)
    requires prev <= o.num && |o.val| < 0x1_0000 && OptsOk(o.num, rest.opts)
    requires Fills(msg, pos, end, OptBytes(form, o.num - prev, o.val))
    requires Fills(msg, end, |msg|, RenderOpts(form, o.num, rest.opts) + RenderPayload(rest.payload))
    ensures OptsOk(prev, [o] + rest.opts)
    ensures Fills(msg, pos, |msg|, RenderOpts(form, prev, [o] + rest.opts) + RenderPayload(rest.payload))
  {
    var first := OptBytes(form, o.num - prev, o.val);
    OptCons(form, prev, o, rest, first);
    FillsThen(msg, pos, end, |msg|, first, RenderOpts(form, o.num, rest.opts) + RenderPayload(rest.payload));
  }

  lemma OptCons(form: HeaderForm, prev: u16, o: Opt, rest: Tail, first: seq<byte>)
    requires prev <= o.num && |o.val| < 0x1_0000 && OptsOk(o.num, rest.opts) && first == OptBytes(form, o.num - prev, o.val)
    ensures OptsOk(prev, [o] + rest.opts)
    ensures RenderOpts(form, prev, [o] + rest.opts) + RenderPayload(rest.payload) ==
      first + (RenderOpts(form, o.num, rest.opts) + RenderPayload(rest.payload))
  {
    assert ([o] + rest.opts)[1..] == rest.opts;
    SeqAssoc(first, RenderOpts(form, o.num, rest.opts), RenderPayload(rest.payload));
  }

  /** Whatever is rendered is accepted and read back. */
  lemma {:induction false} TailComplete(msg: seq<byte>, pos: nat, prev: u16, t: Tail)
    requires OptsOk(prev, t.opts)
    requires Fills(msg, pos, |msg|, RenderOpts(OptHeader, prev, t.opts) + RenderPayload(t.payload))
    ensures ReadTail(msg, pos, prev) == Done(t)
    decreases |t.opts|
  {
    hide OptHeader, OptBytes, ReadOpt;
    if t.opts != [] {
      var o, rest := t.opts[0], Tail(t.opts[1..], t.payload);
      assert [o] + rest.opts == t.opts;
      var first := OptBytes(OptHeader, o.num - prev, o.val);
      OptCons(OptHeader, prev, o, rest, first);
      FillsSplit(msg, pos, |msg|, first, RenderOpts(OptHeader, o.num, rest.opts) + RenderPayload(rest.payload));
      OptFound(msg, pos, pos + |first|, prev, o);
      TailComplete(msg, pos + |first|, o.num, rest);
    } else {
      PayloadFound(msg, pos, prev, t.payload);
    }
  }

  lemma PayloadFound(msg: seq<byte>, pos: nat, prev: u16, payload: seq<byte>)
    requires Fills(msg, pos, |msg|, [] + RenderPayload(payload))
    ensures ReadTail(msg, pos, prev) == Done(Tail([], payload))
  {
    assert [] + RenderPayload(payload) == RenderPayload(payload);
    if payload != [] {
      FillsSplit(msg, pos, |msg|, [PAYLOAD_MARKER], payload);
      assert msg[pos..pos + 1][0] == msg[pos];
      assert msg[pos + 1..] == payload;
    }
  }
}
