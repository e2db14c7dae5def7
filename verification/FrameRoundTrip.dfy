// What the decoder makes of whole streams: runs, round trips and resynchronisation.

module FrameRoundTrip {
  import opened Bytes
  import opened Checksum
  import opened Frame
  import opened FrameParser

  /** Feed a whole byte string. */
  ghost function FeedAll(p: Parser, bs: seq<byte>): Parser {
    Fold(Feed, p, bs)
  }

  /** Feeding `bs` one byte at a time leads from `p` to `q`. */
  ghost predicate Leads(p: Parser, bs: seq<byte>, q: Parser) {
    Runs(Feed, p, bs, q)
  }

  lemma LeadsOne(p: Parser, b: byte)
    ensures Leads(p, [b], Feed(p, b))
  {
    RunsOne(Feed, p, b);
  }

  lemma LeadsThen(p: Parser, a: seq<byte>, q: Parser, b: seq<byte>, r: Parser)
    requires Leads(p, a, q) && Leads(q, b, r)
    ensures Leads(p, a + b, r)
  {
    RunsThen(Feed, p, a, q, b, r);
  }

  // ---------------------------------------------------------------- one encoded frame

  predicate CanStart(ph: Phase) {
    !ph.InEscape? && !ph.InSum?
  }

  /** `p` with its open attempt settled as raw content. */
  function Resync(p: Parser): Parser {
    Settle(p, OpenBytes(p.ct, p.phase)).(phase := Idle)
  }

  lemma FeedHeader(p: Parser, ty: byte)
    requires CanStart(p.phase) && CursorsFit(p) && ty != SOF && ty != EOF
    requires Occupancy(p) + 2 <= RAW_BUF_CAP
    ensures Leads(p, [SOF, ty], Resync(p).(phase := InData(ty, [], [])))
    ensures Occupancy(Resync(p)) == Occupancy(p)
  {
    var start := Resync(p).(phase := AfterSof);
    assert Feed(p, SOF) == start;
    LeadsOne(p, SOF);
    LeadsOne(start, ty);
    LeadsThen(p, [SOF], start, [ty], start.(phase := InData(ty, [], [])));
    assert [SOF] + [ty] == [SOF, ty];
  }

  lemma FeedUnit(p: Parser, b: byte)
    requires p.phase.InData? && Occupancy(p) + |Stuffed(b)| <= RAW_BUF_CAP
    ensures Leads(p, Stuffed(b),
                  p.(phase := InData(p.phase.ty, p.phase.body + Stuffed(b), p.phase.data + [b])))
  {
    var InData(ty, body, data) := p.phase;
    if NeedsEscape(b) {
      var q, e := p.(phase := InEscape(ty, body, data)), EscapeByte(b);
      assert Feed(p, ESC) == q;
      assert Feed(q, e) == p.(phase := InData(ty, body + [ESC, e], data + [b]));
      LeadsOne(p, ESC);
      LeadsOne(q, e);
      LeadsThen(p, [ESC], q, [e], Feed(q, e));
      assert [ESC] + [e] == [ESC, e];
    } else {
      assert Feed(p, b) == p.(phase := InData(ty, body + [b], data + [b]));
      LeadsOne(p, b);
    }
  }

  /** The stuffed payload is absorbed byte by byte. */
  lemma {:induction false} FeedBody(p: Parser, ty: byte, data: seq<byte>)
    requires p.phase == InData(ty, [], [])
    requires Occupancy(p) + |Escape(data)| <= RAW_BUF_CAP
    ensures Leads(p, Escape(data), p.(phase := InData(ty, Escape(data), data)))
  {
    if data == [] {
      RunsNone(Feed, p);
    } else {
      var n := |data| - 1;
      var body, b := Escape(data[..n]), data[n];
      var q := p.(phase := InData(ty, body, data[..n]));
      FeedBody(p, ty, data[..n]);
      FeedUnit(q, b);
      assert data[..n] + [b] == data;
      LeadsThen(p, body, q, Stuffed(b), p.(phase := InData(ty, Escape(data), data)));
    }
  }

  lemma FeedEofs(p: Parser, ty: byte, body: seq<byte>, data: seq<byte>)
    requires p.phase == InData(ty, body, data)
    requires Occupancy(p) + EofCount(p.ct, |data|) <= RAW_BUF_CAP
    ensures Leads(p, Eofs(p.ct, |data|), p.(phase := InSum(ty, body, data, [])))
  {
    LeadsOne(p, EOF);
    if EofCount(p.ct, |data|) == 2 {
      var q := p.(phase := AfterEof(ty, body, data));
      assert Feed(p, EOF) == q;
      assert Feed(q, EOF) == p.(phase := InSum(ty, body, data, []));
      LeadsOne(q, EOF);
      LeadsThen(p, [EOF], q, [EOF], Feed(q, EOF));
      assert [EOF] + [EOF] == [EOF, EOF];
    } else {
      assert Feed(p, EOF) == p.(phase := InSum(ty, body, data, []));
    }
  }

  lemma {:induction false} FeedSumPrefix(p: Parser, ty: byte, body: seq<byte>, data: seq<byte>, sum: seq<byte>)
    requires p.phase == InSum(ty, body, data, []) && |sum| < EncodedLen(p.ct)
    requires Occupancy(p) + |sum| <= RAW_BUF_CAP
    ensures Leads(p, sum, p.(phase := InSum(ty, body, data, sum)))
    decreases |sum|
  {
    if sum == [] {
      RunsNone(Feed, p);
    } else {
      var n := |sum| - 1;
      var q := p.(phase := InSum(ty, body, data, sum[..n]));
      FeedSumPrefix(p, ty, body, data, sum[..n]);
      assert sum[..n] + [sum[n]] == sum;
      assert Feed(q, sum[n]) == p.(phase := InSum(ty, body, data, sum));
      LeadsOne(q, sum[n]);
      LeadsThen(p, sum[..n], q, [sum[n]], Feed(q, sum[n]));
    }
  }

  /** The last checksum byte completes the frame. */
  lemma FeedLastSum(p: Parser, b: byte)
    requires p.phase.InSum? && |p.phase.sum| + 1 == EncodedLen(p.ct) && Occupancy(p) < RAW_BUF_CAP
    requires SumAccepted(p.ct, p.phase.ty, p.phase.data, p.phase.sum + [b])
    ensures Feed(p, b)
         == Append(p, Framed(OpenBytes(p.ct, p.phase) + [b], Frame(p.phase.ty, p.phase.data))).(phase := AfterFrame)
  {
  }

  lemma FeedWholeSum(p: Parser, ty: byte, body: seq<byte>, data: seq<byte>, sum: seq<byte>)
    requires p.phase == InSum(ty, body, data, []) && |sum| == EncodedLen(p.ct)
    requires Occupancy(p) + |sum| <= RAW_BUF_CAP
    requires SumAccepted(p.ct, ty, data, sum)
    ensures Leads(p, sum,
      Append(p, Framed([SOF, ty] + body + Eofs(p.ct, |data|) + sum, Frame(ty, data))).(phase := AfterFrame))
  {
    var n := |sum| - 1;
    var head := [SOF, ty] + body + Eofs(p.ct, |data|);
    var q := p.(phase := InSum(ty, body, data, sum[..n]));
    assert sum[..n] + [sum[n]] == sum;
    FeedSumPrefix(p, ty, body, data, sum[..n]);
    FeedLastSum(q, sum[n]);
    SeqAssoc(head, sum[..n], [sum[n]]);
    LeadsOne(q, sum[n]);
    LeadsThen(p, sum[..n], q, [sum[n]], Feed(q, sum[n]));
  }

  lemma FeedTrailer(p: Parser)
    requires p.phase.AfterFrame? && Occupancy(p) < RAW_BUF_CAP
    ensures Leads(p, [CR, LF], Append(Append(p, Swallowed(CR)), Swallowed(LF)).(phase := Idle))
  {
    var q := Append(p, Swallowed(CR)).(phase := AfterFrameCr);
    assert Feed(p, CR) == q;
    assert Feed(q, LF) == Append(Append(p, Swallowed(CR)), Swallowed(LF)).(phase := Idle);
    LeadsOne(p, CR);
    LeadsOne(q, LF);
    LeadsThen(p, [CR], q, [LF], Feed(q, LF));
    assert [CR] + [LF] == [CR, LF];
  }

  /** Payload and EOFs, then a checksum, complete an attempt that holds only its header. */
  lemma BodyCompletes(p: Parser, ty: byte, data: seq<byte>)
    requires p.phase == InData(ty, [], [])
    requires Occupancy(p) + |Escape(data)| + EofCount(p.ct, |data|) <= RAW_BUF_CAP
    ensures Leads(p, Escape(data) + Eofs(p.ct, |data|), p.(phase := InSum(ty, Escape(data), data, [])))
  {
    var q := p.(phase := InData(ty, Escape(data), data));
    FeedBody(p, ty, data);
    FeedEofs(q, ty, Escape(data), data);
    LeadsThen(p, Escape(data), q, Eofs(p.ct, |data|), p.(phase := InSum(ty, Escape(data), data, [])));
  }

  lemma HeadCompletes(p: Parser, ty: byte, data: seq<byte>)
    requires CanStart(p.phase) && CursorsFit(p) && ty != SOF && ty != EOF
    requires Occupancy(p) + 2 + |Escape(data)| + EofCount(p.ct, |data|) <= RAW_BUF_CAP
    ensures Leads(p, [SOF, ty] + Escape(data) + Eofs(p.ct, |data|), Resync(p).(phase := InSum(ty, Escape(data), data, [])))
    ensures Occupancy(Resync(p)) == Occupancy(p)
  {
    var q := Resync(p).(phase := InData(ty, [], []));
    FeedHeader(p, ty);
    BodyCompletes(q, ty, data);
    LeadsThen(p, [SOF, ty], q, Escape(data) + Eofs(p.ct, |data|), Resync(p).(phase := InSum(ty, Escape(data), data, [])));
    SeqAssoc([SOF, ty], Escape(data), Eofs(p.ct, |data|));
  }

  /** The parser behind a frame that arrived as `wire`. */
  function Completed(p: Parser, wire: seq<byte>, f: Frame): Parser {
    Append(p, Framed(wire, f)).(phase := AfterFrame)
  }

  /** The log entries of a decoded frame: its wire span and the swallowed trailer. */
  function Deliver(p: Parser, wire: seq<byte>, f: Frame): Parser {
    Append(Append(Append(p, Framed(wire, f)), Swallowed(CR)), Swallowed(LF)).(phase := Idle)
  }

  lemma SumCompletes(p: Parser, ty: byte, data: seq<byte>, sum: seq<byte>, wire: seq<byte>)
    requires |sum| == EncodedLen(p.ct) && SumAccepted(p.ct, ty, data, sum)
    requires wire == [SOF, ty] + Escape(data) + Eofs(p.ct, |data|) + sum
    requires |p.kept| - p.rawTaken + |wire| <= RAW_BUF_CAP
    ensures Leads(p.(phase := InSum(ty, Escape(data), data, [])), sum, Completed(p, wire, Frame(ty, data)))
  {
    hide SumAccepted, EncodedLen, Feed, Leads;
    FeedWholeSum(p.(phase := InSum(ty, Escape(data), data, [])), ty, Escape(data), data, sum);
  }

  lemma SpanCompletes(p: Parser, ty: byte, data: seq<byte>, sum: seq<byte>, wire: seq<byte>)
    requires CanStart(p.phase) && CursorsFit(p) && ty != SOF && ty != EOF
    requires wire == [SOF, ty] + Escape(data) + Eofs(p.ct, |data|) + sum && Occupancy(p) + |wire| <= RAW_BUF_CAP
    requires Leads(Resync(p).(phase := InSum(ty, Escape(data), data, [])), sum, Completed(Resync(p), wire, Frame(ty, data)))
    ensures Leads(p, wire, Completed(Resync(p), wire, Frame(ty, data)))
  {
    HeadCompletes(p, ty, data);
    LeadsThen(p, [SOF, ty] + Escape(data) + Eofs(p.ct, |data|),
              Resync(p).(phase := InSum(ty, Escape(data), data, [])), sum, Completed(Resync(p), wire, Frame(ty, data)));
  }

  lemma DeliveryCompletes(p: Parser, wire: seq<byte>, f: Frame)
    requires Leads(p, wire, Completed(Resync(p), wire, f)) && Occupancy(Resync(p)) < RAW_BUF_CAP && p.ct == Resync(p).ct
    ensures FeedAll(p, wire + [CR, LF]) == Deliver(Resync(p), wire, f)
  {
    FeedTrailer(Completed(Resync(p), wire, f));
    LeadsThen(p, wire, Completed(Resync(p), wire, f), [CR, LF], Deliver(Resync(p), wire, f));
    RunsFold(Feed, p, wire + [CR, LF], Deliver(Resync(p), wire, f));
  }

  /**
   * Resynchronisation: whatever attempt was open becomes settled raw content, and exactly
   * the encoded frame is decoded behind it.
   */
  lemma EncodedFrameIsDecoded(p: Parser, ty: byte, data: seq<byte>)
    requires CanStart(p.phase) && CursorsFit(p) && ty != SOF && ty != EOF
    requires Encodable(p.ct, |data|) && Occupancy(p) + |FrameWire(p.ct, ty, data)| <= RAW_BUF_CAP
    ensures FeedAll(p, EncodedFrame(p.ct, ty, data)) == Deliver(Resync(p), FrameWire(p.ct, ty, data), Frame(ty, data))
  {
    hide FeedAll, WireForm;
    var sum, wire := WireForm(p.ct, Logical(p.ct, ty, data)), FrameWire(p.ct, ty, data);
    SumCompletes(Resync(p), ty, data, sum, wire);
    SpanCompletes(p, ty, data, sum, wire);
    DeliveryCompletes(p, FrameWire(p.ct, ty, data), Frame(ty, data));
  }

  // ---------------------------------------------------------------- a stream of encoded frames

  predicate Sendable(f: Frame) {
    f.typeByte != SOF && f.typeByte != EOF && |f.data| <= MAX_DATA_SIZE
  }

  predicate AllSendable(frames: seq<Frame>) {
    forall i :: 0 <= i < |frames| ==> Sendable(frames[i])
  }

  /** The wire form of each frame; every sendable frame is encodable. */
  ghost function Wires(ct: ChecksumType, frames: seq<Frame>): (wires: seq<seq<byte>>)
    requires AllSendable(frames)
    ensures |wires| == |frames|
  {
    seq(|frames|, i requires 0 <= i < |frames| =>
      EncodedFrame(ct, frames[i].typeByte, frames[i].data))
  }

  ghost function EncodedStream(ct: ChecksumType, frames: seq<Frame>): seq<byte>
    requires AllSendable(frames)
  {
    Flatten(Wires(ct, frames))
  }

  predicate Quiet(p: Parser) {
    p.phase.Idle? && CursorsFit(p) && Settled(p) == []
  }

  ghost predicate DecodesFrame(p: Parser, f: Frame, q: Parser) {
    Quiet(q) && q.ct == p.ct && Queued(q) == Queued(p) + [f] && q.drops == p.drops
  }

  lemma DeliverQuiet(p: Parser, wire: seq<byte>, f: Frame)
    requires Quiet(p)
    ensures DecodesFrame(p, f, Deliver(p, wire, f)) && Resync(p) == p
  {
  }

  /** `feed` decodes `wire` to the frame `f` from every quiet state. */
  ghost predicate Decodes(feed: (Parser, byte) -> Parser, ct: ChecksumType, wire: seq<byte>, f: Frame) {
    forall p {:trigger Fold(feed, p, wire)} :: Quiet(p) && p.ct == ct ==> DecodesFrame(p, f, Fold(feed, p, wire))
  }

  lemma QuietFrame(ct: ChecksumType, f: Frame)
    requires Sendable(f)
    ensures Encodable(ct, |f.data|) && Decodes(Feed, ct, EncodedFrame(ct, f.typeByte, f.data), f)
  {
    FrameWireFits(ct, f.typeByte, f.data);
    forall p | Quiet(p) && p.ct == ct
      ensures DecodesFrame(p, f, Fold(Feed, p, EncodedFrame(ct, f.typeByte, f.data)))
    {
      EncodedFrameIsDecoded(p, f.typeByte, f.data);
      DeliverQuiet(p, FrameWire(ct, f.typeByte, f.data), f);
    }
  }

  ghost predicate DecodesAll(p: Parser, frames: seq<Frame>, q: Parser) {
    Quiet(q) && q.ct == p.ct && Queued(q) == Queued(p) + frames && q.drops == p.drops
  }

  lemma {:induction false} StreamFrom(feed: (Parser, byte) -> Parser, p: Parser, frames: seq<Frame>, wires: seq<seq<byte>>)
    requires Quiet(p) && |wires| == |frames|
    requires forall i :: 0 <= i < |frames| ==> Decodes(feed, p.ct, wires[i], frames[i])
    ensures DecodesAll(p, frames, Fold(feed, p, Flatten(wires)))
    decreases |frames|
  {
    if frames == [] {
      assert Queued(p) + frames == Queued(p);
    } else {
      var q := Fold(feed, p, wires[0]);
      assert Decodes(feed, p.ct, wires[0], frames[0]);
      StreamFrom(feed, q, frames[1..], wires[1..]);
      FoldConcat(feed, p, wires[0], Flatten(wires[1..]));
      SeqAssoc(Queued(p), [frames[0]], frames[1..]);
      assert [frames[0]] + frames[1..] == frames;
    }
  }

  /** Any run of encoded frames into a fresh decoder yields exactly those frames, in order, and no raw content. */
  lemma StreamRoundTrip(ct: ChecksumType, frames: seq<Frame>)
    requires AllSendable(frames)
    ensures var q := FeedAll(Fresh(ct), EncodedStream(ct, frames));
            Quiet(q) && Queued(q) == frames && q.drops == 0
  {
    var wires := Wires(ct, frames);
    forall i | 0 <= i < |frames| ensures Decodes(Feed, ct, wires[i], frames[i]) {
      QuietFrame(ct, frames[i]);
    }
    StreamFrom(Feed, Fresh(ct), frames, wires);
  }

  // ---------------------------------------------------------------- runs of receive, timeout and take

  datatype Event = Received(b: byte) | TimedOut | Taken

  /** The decoder with everything it was given and everything it handed out. */
  datatype World = World(parser: Parser, received: seq<byte>, raw: seq<byte>, frames: seq<Frame>)

  ghost function StepWorld(w: World, e: Event): World {
    match e
    case Received(b) => w.(parser := Feed(w.parser, b), received := w.received + [b])
    case TimedOut => w.(parser := TimeOut(w.parser))
    case Taken =>
      var (q, got) := Take(w.parser);
      if got.None? then w
      else if Queued(w.parser) != [] then w.(parser := q, frames := w.frames + [got.value])
      else w.(parser := q, raw := w.raw + got.value.data)
  }

  ghost function Run(ct: ChecksumType, events: seq<Event>): World {
    Fold(StepWorld, World(Fresh(ct), [], [], []), events)
  }

  function EventBytes(e: Event): seq<byte> {
    if e.Received? then [e.b] else []
  }

  function BytesReceived(events: seq<Event>): seq<byte> {
    if events == [] then [] else EventBytes(events[0]) + BytesReceived(events[1..])
  }

  /** What was handed out is what the log says, up to the cursors. */
  ghost predicate HandedOut(p: Parser, raw: seq<byte>, frames: seq<Frame>) {
    && CursorsFit(p)
    && raw == p.kept[..p.rawTaken]
    && frames == p.frames[..p.framesTaken]
  }

  lemma TakeHandedOut(w: World)
    requires HandedOut(w.parser, w.raw, w.frames)
    ensures var v := StepWorld(w, Taken); HandedOut(v.parser, v.raw, v.frames)
  {
    var p := w.parser;
    assert p.kept[..p.rawTaken] + p.kept[p.rawTaken..] == p.kept[..|p.kept|];
    if Queued(p) != [] {
      var k := p.framesTaken;
      assert p.frames[..k] + [p.frames[k]] == p.frames[..k + 1];
    }
  }

  ghost predicate WorldOk(w: World) {
    Accounts(w.parser, w.received) && HandedOut(w.parser, w.raw, w.frames)
  }

  lemma FeedOnlyAppends(p: Parser, b: byte)
    ensures p.kept <= Feed(p, b).kept && p.frames <= Feed(p, b).frames
    ensures Feed(p, b).rawTaken == p.rawTaken && Feed(p, b).framesTaken == p.framesTaken
  {
  }

  lemma HandedOutGrows(p: Parser, q: Parser, raw: seq<byte>, frames: seq<Frame>)
    requires HandedOut(p, raw, frames)
    requires p.kept <= q.kept && p.frames <= q.frames
    requires q.rawTaken == p.rawTaken && q.framesTaken == p.framesTaken
    ensures HandedOut(q, raw, frames)
  {
  }

  lemma ReceiveKeeps(w: World, b: byte)
    requires WorldOk(w)
    ensures WorldOk(w.(parser := Feed(w.parser, b), received := w.received + [b]))
  {
    FeedKeeps(w.parser, b, w.received);
    FeedOnlyAppends(w.parser, b);
    HandedOutGrows(w.parser, Feed(w.parser, b), w.raw, w.frames);
  }

  lemma TimeOutOnlyAppends(p: Parser)
    ensures p.kept <= TimeOut(p).kept && p.frames <= TimeOut(p).frames
    ensures TimeOut(p).rawTaken == p.rawTaken && TimeOut(p).framesTaken == p.framesTaken
  {
  }

  lemma StepKeepsType(w: World, e: Event)
    ensures StepWorld(w, e).received == w.received + EventBytes(e) && StepWorld(w, e).parser.ct == w.parser.ct
  {
    assert w.received + [] == w.received;
  }

  lemma StepKeeps(w: World, e: Event)
    requires WorldOk(w)
    ensures WorldOk(StepWorld(w, e))
    ensures StepWorld(w, e).received == w.received + EventBytes(e) && StepWorld(w, e).parser.ct == w.parser.ct
  {
    hide Accounts, HandedOut, Feed, TimeOut;
    StepKeepsType(w, e);
    match e {
      case Received(b) =>
        ReceiveKeeps(w, b);
      case TimedOut =>
        TimeOutKeeps(w.parser, w.received);
        TimeOutOnlyAppends(w.parser);
        HandedOutGrows(w.parser, TimeOut(w.parser), w.raw, w.frames);
      case Taken =>
        TakeKeeps(w.parser, w.received);
        TakeHandedOut(w);
    }
  }

  /** Whatever every step of `step` keeps, every run keeps. */
  lemma {:induction false} RunFromKeeps(step: (World, Event) -> World, w: World, events: seq<Event>)
    requires WorldOk(w)
    requires forall v, e {:trigger step(v, e)} :: WorldOk(v) ==>
      var u := step(v, e);
      WorldOk(u) && u.received == v.received + EventBytes(e) && u.parser.ct == v.parser.ct
    ensures var u := Fold(step, w, events);
            WorldOk(u) && u.received == w.received + BytesReceived(events) && u.parser.ct == w.parser.ct
    decreases |events|
  {
    if events == [] {
      assert w.received + [] == w.received;
    } else {
      RunFromKeeps(step, step(w, events[0]), events[1..]);
      SeqAssoc(w.received, EventBytes(events[0]), BytesReceived(events[1..]));
    }
  }

  lemma RunKeeps(ct: ChecksumType, events: seq<Event>)
    ensures WorldOk(Run(ct, events))
    ensures Run(ct, events).parser.ct == ct && Run(ct, events).received == BytesReceived(events)
  {
    forall v, e | WorldOk(v)
      ensures var u := StepWorld(v, e);
              WorldOk(u) && u.received == v.received + EventBytes(e) && u.parser.ct == v.parser.ct
    {
      StepKeeps(v, e);
    }
    RunFromKeeps(StepWorld, World(Fresh(ct), [], [], []), events);
    assert [] + BytesReceived(events) == BytesReceived(events);
  }

  /** The log, in order, and the open attempt are the received bytes; raw content and frames are complete. */
  ghost predicate Conserved(w: World, received: seq<byte>) {
    && received == LogBytes(w.parser.log) + OpenBytes(w.parser.ct, w.parser.phase)
    && LogOk(w.parser.ct, w.parser.log)
    && LogKept(w.parser.log) == w.raw + Settled(w.parser)
    && LogFrames(w.parser.log) == w.frames + Queued(w.parser)
    && LogDrops(w.parser.log) == w.parser.drops
    && 0 <= Occupancy(w.parser) <= RAW_BUF_CAP
  }

  lemma WorldConserved(w: World)
    requires WorldOk(w)
    ensures Conserved(w, w.received)
  {
  }

  /**
   * Byte conservation over every run: the received bytes are, in order, the wire spans of decoded
   * frames, swallowed trailer bytes, dropped bytes and raw content, then the open attempt; raw content
   * and frames are what was handed out followed by what is still held.
   */
  lemma ByteConservation(ct: ChecksumType, events: seq<Event>)
    ensures Conserved(Run(ct, events), BytesReceived(events))
  {
    RunKeeps(ct, events);
    WorldConserved(Run(ct, events));
  }

  // ---------------------------------------------------------------- authenticity

  /** Some consecutive stretch of `received` is a checked span of frame `f`. */
  ghost predicate WasOnTheWire(ct: ChecksumType, received: seq<byte>, f: Frame) {
    exists off: nat, wire, body, sum :: OccursAt(received, off, wire) && FrameSpan(ct, wire, f, body, sum)
  }

  lemma WasOnTheWireExtends(ct: ChecksumType, received: seq<byte>, more: seq<byte>, f: Frame)
    requires WasOnTheWire(ct, received, f)
    ensures WasOnTheWire(ct, received + more, f)
  {
    var off: nat, wire, body, sum :| OccursAt(received, off, wire) && FrameSpan(ct, wire, f, body, sum);
    OccursExtends(received, off, wire, more);
  }

  lemma SpanAtEnd(ct: ChecksumType, before: seq<byte>, wire: seq<byte>, f: Frame, body: seq<byte>, sum: seq<byte>)
    requires FrameSpan(ct, wire, f, body, sum)
    ensures WasOnTheWire(ct, before + wire, f)
  {
    OccursAtEnd(before, wire);
  }

  ghost predicate AllOnTheWire(ct: ChecksumType, received: seq<byte>, frames: seq<Frame>) {
    forall i :: 0 <= i < |frames| ==> WasOnTheWire(ct, received, frames[i])
  }

  lemma PieceOnTheWire(ct: ChecksumType, before: seq<byte>, frames: seq<Frame>, log: seq<Piece>, n: nat)
    requires n < |log| && PieceOk(ct, log, n) && AllOnTheWire(ct, before, frames)
    ensures AllOnTheWire(ct, before + PieceBytes(log[n]), frames + (if log[n].Framed? then [log[n].frame] else []))
  {
    hide FrameSpan, OccursAt;
    forall i | 0 <= i < |frames| ensures WasOnTheWire(ct, before + PieceBytes(log[n]), frames[i]) {
      WasOnTheWireExtends(ct, before, PieceBytes(log[n]), frames[i]);
    }
    if log[n].Framed? {
      var body, sum :| FrameSpan(ct, log[n].wire, log[n].frame, body, sum);
      SpanAtEnd(ct, before, log[n].wire, log[n].frame, body, sum);
    }
  }

  lemma {:induction false} FramesOnTheWire(ct: ChecksumType, log: seq<Piece>, n: nat)
    requires n <= |log| && LogOk(ct, log)
    ensures AllOnTheWire(ct, LogBytes(log[..n]), LogFrames(log[..n]))
  {
    if n > 0 {
      FramesOnTheWire(ct, log, n - 1);
      assert log[..n][..n - 1] == log[..n - 1];
      PieceOnTheWire(ct, LogBytes(log[..n - 1]), LogFrames(log[..n - 1]), log, n - 1);
      assert log[n - 1].Framed? || LogFrames(log[..n - 1]) + [] == LogFrames(log[..n - 1]);
    }
  }

  /** Every frame ever queued or handed out was really on the wire, as one consecutive checked span. */
  lemma DecodedFramesAreAuthentic(ct: ChecksumType, events: seq<Event>, f: Frame)
    requires f in Run(ct, events).parser.frames
    ensures WasOnTheWire(ct, BytesReceived(events), f)
    ensures f.typeByte != SOF && f.typeByte != EOF
  {
    var p := Run(ct, events).parser;
    RunKeeps(ct, events);
    var i :| 0 <= i < |p.frames| && p.frames[i] == f;
    AuthenticParser(p, i);
    assert BytesReceived(events) == Past(p);
  }

  lemma AuthenticParser(p: Parser, i: nat)
    requires LogSound(p) && i < |p.frames|
    ensures WasOnTheWire(p.ct, Past(p), p.frames[i])
  {
    FramesOnTheWire(p.ct, p.log, |p.log|);
    assert p.log[..|p.log|] == p.log;
    WasOnTheWireExtends(p.ct, p.bytes, OpenBytes(p.ct, p.phase), p.frames[i]);
  }

  /** A frame in which one checksummed byte was replaced no longer matches its checksum, of either kind. */
  lemma SubstitutedByteIsRejected(ct: ChecksumType, ty: byte, data: seq<byte>, ty': byte, data': seq<byte>, i: nat)
    requires Encodable(ct, |data|) && |data'| == |data| && i < |Logical(ct, ty, data)|
    requires Logical(ct, ty, data)[i] != Logical(ct, ty', data')[i]
    requires Logical(ct, ty', data') == Logical(ct, ty, data)[i := Logical(ct, ty', data')[i]]
    ensures var sum := WireForm(ct, Logical(ct, ty, data));
            SumAccepted(ct, ty', data', sum) <==> IsIgnoreSentinel(ct, sum)
  {
    DetectsSubstitution(ct, Logical(ct, ty, data), i, Logical(ct, ty', data')[i]);
  }
}
