// What the decoder of mup1/src/frame.rs makes of a byte stream, recorded payload end included.
//
// `data_end` counts from the start of the buffer and is not corrected when settled bytes in front of it are drained. So
// the decoder is the reference parser and one number more: by how much the recorded end has become too large. It only
// shows when a frame completes, and its payload is read back from the buffer.

module FrameMachine {
  import opened Bytes
  import opened Checksum
  import opened Frame
  import opened FrameParser

  // ---------------------------------------------------------------- the final unescaping pass

  /** What unescaping `raw[i..end)` yields; `None` when it indexes past the buffer. */
  function DecodeSpan(raw: seq<byte>, i: nat, end: nat): Option<seq<byte>>
    decreases end - i
  {
    if i >= end then Some([])
    else if i >= |raw| then None
    else if raw[i] != ESC then Prepend(raw[i], DecodeSpan(raw, i + 1, end))
    else if i + 1 >= |raw| then None
    else Prepend(UnescapeByte(raw[i + 1]), DecodeSpan(raw, i + 2, end))
  }

  function Prepend(b: byte, rest: Option<seq<byte>>): Option<seq<byte>> {
    if rest.None? then None else Some([b] + rest.value)
  }

  /** Over a well-stuffed body the pass reproduces the payload and goes on behind it. */
  lemma {:induction false} DecodeSpanOfBody(raw: seq<byte>, i: nat, body: seq<byte>, data: seq<byte>, end: nat)
    requires OccursAt(raw, i, body) && Unescape(body) == Some(data) && i + |body| <= end
    ensures var rest := DecodeSpan(raw, i + |body|, end);
            DecodeSpan(raw, i, end) == if rest.None? then None else Some(data + rest.value)
    decreases |body|
  {
    var rest := DecodeSpan(raw, i + |body|, end);
    if body == [] {
      assert rest.Some? ==> [] + rest.value == rest.value;
    } else {
      var k := if body[0] == ESC then 2 else 1;
      assert raw[i] == body[0] && (k == 2 ==> raw[i + 1] == body[1]);
      assert raw[i + k..i + |body|] == body[k..];
      DecodeSpanOfBody(raw, i + k, body[k..], Unescape(body[k..]).value, end);
      if rest.Some? {
        SeqAssoc([data[0]], data[1..], rest.value);
        assert data == [data[0]] + data[1..];
      }
    }
  }

  lemma {:induction false} UnescapeShrinks(body: seq<byte>)
    requires Unescape(body).Some?
    ensures |Unescape(body).value| <= |body|
    decreases |body|
  {
    if body != [] {
      UnescapeShrinks(body[(if body[0] == ESC then 2 else 1)..]);
    }
  }

  /**
   * `dataEnd` counts from the start of the buffer, so draining `k` settled bytes in front of an attempt
   * that already recorded it leaves it `k` too large: the frame then decodes to a longer payload, or the
   * pass runs off the buffer.
   */
  lemma StaleDataEndCorrupts(ct: ChecksumType, ty: byte, body: seq<byte>, data: seq<byte>, sum: seq<byte>, k: nat)
    requires Unescape(body) == Some(data) && k > 0
    ensures var raw := [SOF, ty] + body + Eofs(ct, |data|) + sum;
            && DecodeSpan(raw, 2, 2 + |body|) == Some(data)
            && DecodeSpan(raw, 2, 2 + |body| + k) != Some(data)
  {
    var raw := [SOF, ty] + body + Eofs(ct, |data|) + sum;
    DecodeSpanOfBody(raw, 2, body, data, 2 + |body|);
    DecodeSpanOfBody(raw, 2, body, data, 2 + |body| + k);
    assert raw[2 + |body|] == EOF;
    assert data + [] == data;
  }

  /** The pass sees nothing of what lies in front of it. */
  lemma {:induction false} DecodeSpanShift(before: seq<byte>, raw: seq<byte>, i: nat, end: nat)
    ensures DecodeSpan(before + raw, |before| + i, |before| + end) == DecodeSpan(raw, i, end)
    decreases end - i
  {
    if i < end && i < |raw| {
      assert (before + raw)[|before| + i] == raw[i];
      if raw[i] != ESC {
        DecodeSpanShift(before, raw, i + 1, end);
      } else if i + 1 < |raw| {
        assert (before + raw)[|before| + i + 1] == raw[i + 1];
        DecodeSpanShift(before, raw, i + 2, end);
      }
    }
  }

  /** When the recorded end lies beyond the buffer, the pass runs off it, whatever the bytes are. */
  lemma {:induction false} SpanBeyondBuffer(raw: seq<byte>, i: nat, end: nat)
    requires i <= |raw| < end
    ensures DecodeSpan(raw, i, end) == None
    decreases end - i
  {
    if i < |raw| {
      if raw[i] != ESC {
        SpanBeyondBuffer(raw, i + 1, end);
      } else if i + 1 < |raw| {
        SpanBeyondBuffer(raw, i + 2, end);
      }
    }
  }

  // ---------------------------------------------------------------- one step

  /** The end of the payload has been recorded, and the attempt is still open. */
  predicate Recorded(ph: Phase) {
    ph.AfterEof? || ph.InSum?
  }

  /** `stale` is what draining has left too much of in the recorded end; `queued` are all frames ever queued. */
  datatype Machine = Machine(parser: Parser, stale: nat, queued: seq<Frame>)

  function Start(ct: ChecksumType): Machine {
    Machine(Fresh(ct), 0, [])
  }

  /** The queue has as many frames as there were completed attempts, and `stale` belongs to a recorded end. */
  ghost predicate InStep(m: Machine) {
    |m.queued| == |m.parser.frames| && (!Recorded(m.parser.phase) ==> m.stale == 0)
  }

  /** The byte is the last of an accepted checksum. */
  ghost predicate Accepted(ct: ChecksumType, ph: Phase, b: byte) {
    ph.InSum? && |ph.sum| + 1 == EncodedLen(ct) && SumAccepted(ct, ph.ty, ph.data, ph.sum + [b])
  }

  /** The byte completes a frame. */
  ghost predicate Completes(p: Parser, b: byte) {
    Occupancy(p) < RAW_BUF_CAP && Accepted(p.ct, p.phase, b)
  }

  /** The frame read back from the buffer; `None` when the pass runs off its end. */
  function ReadBack(ct: ChecksumType, ph: Phase, b: byte, stale: nat): Option<Frame>
    requires ph.InSum?
  {
    WithType(ph.ty, DecodeSpan(OpenBytes(ct, ph) + [b], 2, 2 + |ph.body| + stale))
  }

  function WithType(ty: byte, data: Option<seq<byte>>): Option<Frame> {
    match data case None => None case Some(d) => Some(Frame(ty, d))
  }

  /** The same with settled bytes in front. */
  lemma ReadBackInBuffer(ct: ChecksumType, ph: Phase, b: byte, stale: nat, before: seq<byte>, start: nat)
    requires ph.InSum? && start == |before| + 2
    ensures ReadBack(ct, ph, b, stale) ==
      WithType(ph.ty, DecodeSpan(before + (OpenBytes(ct, ph) + [b]), start, start + |ph.body| + stale))
  {
    var i: nat := start - |before|;
    DecodeSpanShift(before, OpenBytes(ct, ph) + [b], i, i + |ph.body| + stale);
  }

  lemma TypeInFront(ct: ChecksumType, ph: Phase, b: byte)
    requires ph.InSum?
    ensures var open := OpenBytes(ct, ph) + [b]; |open| >= 2 && open[1] == ph.ty
  {
  }

  function Moved(m: Machine, q: Parser): Machine {
    Machine(q, if Recorded(q.phase) then m.stale else 0, m.queued)
  }

  /** The machine behind a byte that moved the parser on to `q`; `None` when reading back a frame fails on an index. */
  ghost function Placed(m: Machine, q: Parser, b: byte): Option<Machine> {
    if !Accepted(m.parser.ct, m.parser.phase, b) then Some(Moved(m, q))
    else
      match ReadBack(m.parser.ct, m.parser.phase, b, m.stale)
      case None => None
      case Some(f) => Some(Machine(q, 0, m.queued + [f]))
  }

  /** One byte in. */
  ghost function FeedMachine(m: Machine, b: byte): Option<Machine> {
    var q := Feed(m.parser, b);
    if Occupancy(m.parser) < RAW_BUF_CAP then Placed(m, q, b) else Some(Moved(m, q))
  }

  function TimeOutMachine(m: Machine): Machine {
    Moved(m, TimeOut(m.parser))
  }

  /** Hand out the oldest frame or all settled bytes; the recorded end stays where it is. */
  function TakeMachine(m: Machine): (Machine, Option<Frame>) {
    var p := m.parser;
    if p.framesTaken < |m.queued| then
      (m.(parser := p.(framesTaken := p.framesTaken + 1)), Some(m.queued[p.framesTaken]))
    else if Settled(p) != [] then
      (m.(parser := p.(rawTaken := |p.kept|), stale := if Recorded(p.phase) then m.stale + |Settled(p)| else 0),
       Some(Frame(TYPE_RAW, Settled(p))))
    else (m, None)
  }

  /** With the recorded end in its place the frame read back is the one its span stands for, and only then. */
  lemma {:induction false} ReadBackExactly(ct: ChecksumType, ph: Phase, b: byte, stale: nat)
    requires ph.InSum? && Unescape(ph.body) == Some(ph.data)
    ensures ReadBack(ct, ph, b, stale) == Some(Frame(ph.ty, ph.data)) <==> stale == 0
  {
    var sum := ph.sum + [b];
    var raw := [SOF, ph.ty] + ph.body + Eofs(ct, |ph.data|) + sum;
    assert OpenBytes(ct, ph) + [b] == raw by {
      SeqAssoc([SOF, ph.ty] + ph.body + Eofs(ct, |ph.data|), ph.sum, [b]);
    }
    StaleDataEndCorrupts(ct, ph.ty, ph.body, ph.data, sum, if stale > 0 then stale else 1);
  }

  /** A recorded end beyond the whole attempt makes the decoder fail when the frame completes. */
  lemma {:induction false} EndBeyondAttemptCrashes(m: Machine, b: byte)
    requires Completes(m.parser, b) && m.stale > EofCount(m.parser.ct, |m.parser.phase.data|) + EncodedLen(m.parser.ct)
    ensures FeedMachine(m, b) == None
  {
    hide DecodeSpan, Feed, SumAccepted;
    var ph := m.parser.phase;
    SpanBeyondBuffer(OpenBytes(m.parser.ct, ph) + [b], 2, 2 + |ph.body| + m.stale);
  }

  lemma {:induction false} OnlySumCompletes(ct: ChecksumType, ph: Phase, b: byte)
    ensures FramesOf(ByteMove(ct, ph, b).piece) ==
      if ph.InSum? && |ph.sum| + 1 >= EncodedLen(ct) && SumAccepted(ct, ph.ty, ph.data, ph.sum + [b])
      then [Frame(ph.ty, ph.data)] else []
    ensures ByteMove(ct, ph, b).piece.Some? ==> !ByteMove(ct, ph, b).piece.value.Kept?
  {
  }

  /** A frame completes by one more frame in the log, and nothing else touches the log's frames. */
  lemma {:induction false} FeedFrames(p: Parser, b: byte)
    requires PhaseOk(p.ct, p.phase)
    ensures Completes(p, b) ==>
      Feed(p, b).frames == p.frames + [Frame(p.phase.ty, p.phase.data)] && Feed(p, b).phase == AfterFrame
    ensures !Completes(p, b) ==> Feed(p, b).frames == p.frames
  {
    OnlySumCompletes(p.ct, p.phase, b);
    var m := if Occupancy(p) < RAW_BUF_CAP then ByteMove(p.ct, p.phase, b) else OverflowMove(p.ct, p.phase, b);
    ApplyCounts(p, m);
    assert p.frames + [] == p.frames;
  }

  lemma {:induction false} FeedTakesNone(p: Parser, b: byte)
    ensures Feed(p, b).framesTaken == p.framesTaken
  {
  }

  lemma {:induction false} TimeOutFrames(p: Parser)
    ensures TimeOut(p).frames == p.frames && TimeOut(p).framesTaken == p.framesTaken
    ensures TimeOut(p).phase == p.phase || TimeOut(p).phase == Idle
  {
  }

  /** A byte adds to the queue as to the log, and takes nothing out. */
  lemma {:induction false} MachineInStep(m: Machine, b: byte)
    requires PhaseOk(m.parser.ct, m.parser.phase) && |m.queued| == |m.parser.frames|
    ensures FeedMachine(m, b).Some? ==>
      var n := FeedMachine(m, b).value;
      |n.queued| == |n.parser.frames| && n.parser.framesTaken == m.parser.framesTaken && n.parser == Feed(m.parser, b)
  {
    FeedFrames(m.parser, b);
    FeedTakesNone(m.parser, b);
  }

  /** While the payload end is recorded, it was recorded before, or has just been. */
  lemma {:induction false} StaysRecorded(p: Parser, b: byte)
    requires Recorded(Feed(p, b).phase)
    ensures Recorded(p.phase) || p.phase.InData?
  {
  }
}
