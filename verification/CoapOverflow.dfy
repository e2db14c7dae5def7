// When the option arithmetic of the message parser leaves sixteen bits: exactly when ordinary options are followed by
// one whose header asks for a length or an option number of 65536 or more.

module CoapOverflow {
  import opened Bytes
  import opened CoapMessage
  import opened CoapRequest
  import CoapCodec

  /** Two extension bytes that stand for 65536 or more. */
  predicate WideExt(msg: seq<byte>, pos: nat, nibble: nat) {
    nibble == 14 && pos + 1 < |msg| && 256 * (msg[pos] as int) + msg[pos + 1] + 269 >= 0x1_0000
  }

  /** Some delta is written at `pos`, and the length behind it is too wide. */
  ghost predicate WideLength(msg: seq<byte>, at: nat) {
    at < |msg| && exists delta: u16 ::
      && Nibble(delta) == msg[at] / 16 && Fills(msg, at + 1, at + 1 + |Ext(delta)|, Ext(delta))
      && WideExt(msg, at + 1 + |Ext(delta)|, msg[at] % 16)
  }

  /** A whole option is written at `at` whose delta takes the option number out of range. */
  ghost predicate WideNumber(msg: seq<byte>, at: nat, prev: u16) {
    exists delta: u16, val: seq<byte> :: |val| < 0x1_0000 && prev + delta >= 0x1_0000
      && Fills(msg, at, at + |OptBytes(OptHeader, delta, val)|, OptBytes(OptHeader, delta, val))
  }

  /** The option header at `at` asks for more than sixteen bits. */
  ghost predicate Exceeds(msg: seq<byte>, at: nat, prev: u16) {
    && at < |msg| && msg[at] != PAYLOAD_MARKER
    && (WideExt(msg, at + 1, msg[at] / 16) || WideLength(msg, at) || WideNumber(msg, at, prev))
  }

  lemma {:induction false} WideLengthOverflows(msg: seq<byte>, at: nat, prev: u16)
    requires WideLength(msg, at)
    ensures ReadOpt(msg, at, prev) == OptOverflow
  {
    var delta: u16 :| Nibble(delta) == msg[at] / 16 && Fills(msg, at + 1, at + 1 + |Ext(delta)|, Ext(delta))
      && WideExt(msg, at + 1 + |Ext(delta)|, msg[at] % 16);
    ExtFound(msg, at + 1, at + 1 + |Ext(delta)|, delta);
  }

  lemma {:induction false} NumberOverflows(msg: seq<byte>, at: nat, prev: u16, o: Opt, end: nat)
    requires at < |msg| && ReadOpt(msg, at, 0) == OptOk(o, end) && prev + o.num >= 0x1_0000
    ensures ReadOpt(msg, at, prev) == OptOverflow
  {
  }

  lemma {:induction false} WideNumberOverflows(msg: seq<byte>, at: nat, prev: u16)
    requires WideNumber(msg, at, prev)
    ensures at < |msg| && ReadOpt(msg, at, prev) == OptOverflow
  {
    var delta: u16, val: seq<byte> :| |val| < 0x1_0000 && prev + delta >= 0x1_0000
      && Fills(msg, at, at + |OptBytes(OptHeader, delta, val)|, OptBytes(OptHeader, delta, val));
    OptFound(msg, at, at + |OptBytes(OptHeader, delta, val)|, 0, Opt(delta, val));
    NumberOverflows(msg, at, prev, Opt(delta, val), at + |OptBytes(OptHeader, delta, val)|);
  }

  lemma {:induction false} ExceedsIsOverflow(msg: seq<byte>, at: nat, prev: u16)
    requires Exceeds(msg, at, prev)
    ensures ReadOpt(msg, at, prev) == OptOverflow
  {
    if WideLength(msg, at) {
      WideLengthOverflows(msg, at, prev);
    } else if WideNumber(msg, at, prev) {
      WideNumberOverflows(msg, at, prev);
    }
  }

  lemma {:induction false} NumberExceeds(msg: seq<byte>, at: nat, prev: u16, o: Opt, end: nat)
    requires at < |msg| && ReadOpt(msg, at, 0) == OptOk(o, end) && prev + o.num >= 0x1_0000
    ensures WideNumber(msg, at, prev)
  {
    OptSound(msg, at, 0);
    assert Fills(msg, at, at + |OptBytes(OptHeader, o.num, o.val)|, OptBytes(OptHeader, o.num, o.val));
  }

  lemma {:induction false} LengthExceeds(msg: seq<byte>, at: nat, delta: u16, mid: nat)
    requires at < |msg| && ReadExt(msg, at + 1, msg[at] / 16) == ExtOk(delta, mid) && WideExt(msg, mid, msg[at] % 16)
    ensures WideLength(msg, at)
  {
    ExtSound(msg, at + 1, msg[at] / 16);
  }

  /** How reading one option can overflow: in either extension, or in the number of an option that reads well from zero. */
  lemma {:induction false} OverflowCases(msg: seq<byte>, at: nat, prev: u16)
    requires at < |msg| && ReadOpt(msg, at, prev) == OptOverflow
    ensures var d := ReadExt(msg, at + 1, msg[at] / 16);
      || WideExt(msg, at + 1, msg[at] / 16)
      || (d.ExtOk? && WideExt(msg, d.end, msg[at] % 16))
      || (ReadOpt(msg, at, 0).OptOk? && prev + ReadOpt(msg, at, 0).o.num >= 0x1_0000)
  {
  }

  lemma {:induction false} OverflowExceeds(msg: seq<byte>, at: nat, prev: u16)
    requires at < |msg| && msg[at] != PAYLOAD_MARKER && ReadOpt(msg, at, prev) == OptOverflow
    ensures Exceeds(msg, at, prev)
  {
    OverflowCases(msg, at, prev);
    var d, r := ReadExt(msg, at + 1, msg[at] / 16), ReadOpt(msg, at, 0);
    if d.ExtOk? && WideExt(msg, d.end, msg[at] % 16) {
      LengthExceeds(msg, at, d.n, d.end);
    } else if r.OptOk? && prev + r.o.num >= 0x1_0000 {
      NumberExceeds(msg, at, prev, r.o, r.end);
    }
  }

  /** From `pos` on, `opts` are written up to `at`, where an option header exceeds sixteen bits. */
  ghost predicate ExceedsBehind(form: HeaderForm, msg: seq<byte>, pos: nat, prev: u16, opts: seq<Opt>, at: nat) {
    OptsOk(prev, opts) && Fills(msg, pos, at, RenderOpts(form, prev, opts)) && Exceeds(msg, at, CoapCodec.LastNum(prev, opts))
  }

  lemma {:induction false} OneMore(form: HeaderForm, msg: seq<byte>, pos: nat, end: nat, prev: u16, o: Opt, rest: seq<Opt>, at: nat)
    requires prev <= o.num && |o.val| < 0x1_0000 && Fills(msg, pos, end, OptBytes(form, o.num - prev, o.val))
    requires ExceedsBehind(form, msg, end, o.num, rest, at)
    ensures ExceedsBehind(form, msg, pos, prev, [o] + rest, at)
  {
    CoapCodec.RenderOne(form, prev, o, rest);
    FillsThen(msg, pos, end, at, OptBytes(form, o.num - prev, o.val), RenderOpts(form, o.num, rest));
  }

  lemma {:induction false} TailStep(msg: seq<byte>, pos: nat, prev: u16) returns (o: Opt, end: nat)
    requires ReadTail(msg, pos, prev) == Overflow
    ensures pos < |msg| && msg[pos] != PAYLOAD_MARKER
    ensures ReadOpt(msg, pos, prev) != OptOverflow ==>
      && pos < end <= |msg| && prev <= o.num && |o.val| < 0x1_0000 && ReadTail(msg, end, o.num) == Overflow
      && Fills(msg, pos, end, OptBytes(OptHeader, o.num - prev, o.val))
  {
    var r := ReadOpt(msg, pos, prev);
    if r.OptOk? {
      OptSound(msg, pos, prev);
      o, end := r.o, r.end;
    } else {
      o, end := Opt(0, []), pos;
    }
  }

  lemma {:induction false} NoneYet(msg: seq<byte>, pos: nat, prev: u16)
    requires Exceeds(msg, pos, prev)
    ensures ExceedsBehind(OptHeader, msg, pos, prev, [], pos)
  {
  }

  lemma {:induction false} TailExceeds(msg: seq<byte>, pos: nat, prev: u16) returns (opts: seq<Opt>, at: nat)
    requires ReadTail(msg, pos, prev) == Overflow
    ensures ExceedsBehind(OptHeader, msg, pos, prev, opts, at)
    decreases |msg| - pos
  {
    var o, end := TailStep(msg, pos, prev);
    if ReadOpt(msg, pos, prev) == OptOverflow {
      OverflowExceeds(msg, pos, prev);
      NoneYet(msg, pos, prev);
      opts, at := [], pos;
    } else {
      opts, at := TailExceeds(msg, end, o.num);
      OneMore(OptHeader, msg, pos, end, prev, o, opts, at);
      opts := [o] + opts;
    }
  }

  lemma {:induction false} FirstThenRest(form: HeaderForm, msg: seq<byte>, pos: nat, prev: u16, opts: seq<Opt>, at: nat)
    requires ExceedsBehind(form, msg, pos, prev, opts, at) && opts != []
    ensures prev <= opts[0].num && |opts[0].val| < 0x1_0000
    ensures var first := OptBytes(form, opts[0].num - prev, opts[0].val);
      && Fills(msg, pos, pos + |first|, first)
      && ExceedsBehind(form, msg, pos + |first|, opts[0].num, opts[1..], at)
  {
    var o, rest := opts[0], opts[1..];
    assert [o] + rest == opts;
    CoapCodec.RenderOne(form, prev, o, rest);
    FillsSplit(msg, pos, at, OptBytes(form, o.num - prev, o.val), RenderOpts(form, o.num, rest));
  }

  lemma {:induction false} ReadsOn(msg: seq<byte>, pos: nat, prev: u16, o: Opt, end: nat)
    requires prev <= o.num && |o.val| < 0x1_0000 && Fills(msg, pos, end, OptBytes(OptHeader, o.num - prev, o.val))
    requires ReadTail(msg, end, o.num) == Overflow
    ensures ReadTail(msg, pos, prev) == Overflow
  {
    OptFound(msg, pos, end, prev, o);
  }

  lemma {:induction false} AtOnce(msg: seq<byte>, pos: nat, prev: u16, at: nat)
    requires ExceedsBehind(OptHeader, msg, pos, prev, [], at)
    ensures ReadTail(msg, pos, prev) == Overflow
  {
    ExceedsIsOverflow(msg, pos, prev);
  }

  lemma {:induction false} TailOverflows(msg: seq<byte>, pos: nat, prev: u16, opts: seq<Opt>, at: nat)
    requires ExceedsBehind(OptHeader, msg, pos, prev, opts, at)
    ensures ReadTail(msg, pos, prev) == Overflow
    decreases |opts|
  {
    if opts == [] {
      AtOnce(msg, pos, prev, at);
    } else {
      FirstThenRest(OptHeader, msg, pos, prev, opts, at);
      var end := pos + |OptBytes(OptHeader, opts[0].num - prev, opts[0].val)|;
      TailOverflows(msg, end, opts[0].num, opts[1..], at);
      ReadsOn(msg, pos, prev, opts[0], end);
    }
  }

  /** Version, token length and room for the token: what the parser asks of a message before it looks at options. */
  predicate Headed(msg: seq<byte>) {
    |msg| >= 4 && msg[0] / 64 == VERSION && msg[0] % 16 <= 8 && 4 + msg[0] % 16 <= |msg|
  }

  /** Ordinary options and then one that asks for more than sixteen bits. */
  ghost predicate TailTooWide(msg: seq<byte>, pos: nat) {
    exists opts, at :: ExceedsBehind(OptHeader, msg, pos, 0, opts, at)
  }

  lemma {:induction false} TailExactly(msg: seq<byte>, pos: nat)
    ensures ReadTail(msg, pos, 0) == Overflow <==> TailTooWide(msg, pos)
  {
    if ReadTail(msg, pos, 0) == Overflow {
      var opts, at := TailExceeds(msg, pos, 0);
    }
    if TailTooWide(msg, pos) {
      var opts, at :| ExceedsBehind(OptHeader, msg, pos, 0, opts, at);
      TailOverflows(msg, pos, 0, opts, at);
    }
  }

  /**
   * The parser's 16-bit arithmetic overflows on exactly those messages in which ordinary options are followed by one
   * that asks for more than sixteen bits; on every other message it returns a result or a parse error.
   */
  lemma {:induction false} OverflowExactly(msg: seq<byte>)
    ensures ParseMessage(msg) == Overflow <==> Headed(msg) && TailTooWide(msg, 4 + msg[0] % 16)
  {
    if Headed(msg) { TailExactly(msg, 4 + msg[0] % 16); }
  }

  /** No request whose segments fit a 16-bit length makes its receiver overflow. */
  lemma {:induction false} EncodedNeverOverflows(p: Request)
    requires Short(RequestOpts(p))
    ensures ParseMessage(RequestWire(p)).Done?
  {
    RequestOptsOrdered(p);
    WireParsed(p, RequestOpts(p), Fold(Keep, NO_SLOTS, RequestOpts(p)));
  }
}
