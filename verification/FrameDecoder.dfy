// The byte-fed MUP1 decoder: mup1/src/frame.rs, `Decoder`.
//
// One verbatim buffer `raw` holds settled content up to `rawHead` and the open attempt behind it;
// `Valid` ties every field to the machine of FrameMachine.dfy, in every state the code can reach.

module FrameDecoder {
  import opened Bytes
  import opened Checksum
  import opened Frame
  import opened FrameParser
  import opened FrameMachine

  datatype State = Idle | Sof | Data | DataEsc | Eof | Sum | PostFrame | PostFrameCr

  datatype InjectStatus = InjectStatus(frameReady: bool, checksumError: bool, bufferFull: bool)

  function StateOf(ph: Phase): State {
    match ph
    case Idle => State.Idle
    case AfterFrame => PostFrame
    case AfterFrameCr => PostFrameCr
    case AfterSof => Sof
    case InData(_, _, _) => Data
    case InEscape(_, _, _) => DataEsc
    case AfterEof(_, _, _) => Eof
    case InSum(_, _, _, _) => Sum
  }

  /** The logical bytes fed to the running checksum of an open attempt. */
  function FedBytes(ct: ChecksumType, ph: Phase): Option<seq<byte>> {
    match ph
    case AfterSof => Some([SOF])
    case InData(ty, _, data) => Some([SOF, ty] + data)
    case InEscape(ty, _, data) => Some([SOF, ty] + data)
    case AfterEof(ty, _, data) => Some([SOF, ty] + data + [EOF])
    case InSum(ty, _, data, _) => Some(Logical(ct, ty, data))
    case _ => None
  }

  /** A move that logs no extra piece only shifts the border between settled content and attempt. */
  lemma BufferAfter(p: Parser, m: Move, ch: byte)
    requires CursorsFit(p) && m.piece.None?
    requires OpenBytes(p.ct, p.phase) + [ch] == m.settle + OpenBytes(p.ct, m.next)
    ensures var q := Apply(p, m);
            && Settled(q) + OpenBytes(p.ct, m.next) + [] == Settled(p) + OpenBytes(p.ct, p.phase) + [ch]
            && |Settled(q)| == |Settled(p)| + |m.settle|
            && q.drops == p.drops && q.ct == p.ct && q.phase == m.next
  {
    ApplyQueues(p, m);
    SeqAssoc(Settled(p), OpenBytes(p.ct, p.phase), [ch]);
    SeqAssoc(Settled(p), m.settle, OpenBytes(p.ct, m.next));
  }

  /** Each EOF extends the attempt and the checksummed bytes by itself. */
  lemma EofGrows(ct: ChecksumType, ty: byte, body: seq<byte>, data: seq<byte>)
    ensures var inSum := InSum(ty, body, data, []);
            var before := if EofCount(ct, |data|) == 2 then AfterEof(ty, body, data) else InData(ty, body, data);
            && OpenBytes(ct, inSum) == OpenBytes(ct, before) + [EOF]
            && FedBytes(ct, inSum) == Some(FedBytes(ct, before).value + [EOF])
  {
    assert [EOF] + [EOF] == [EOF, EOF];
    SeqAssoc([SOF, ty] + data, [EOF], [EOF]);
    SeqAssoc([SOF, ty] + body, [EOF], [EOF]);
  }

  lemma DrainedMachine(m: Machine)
    requires CursorsFit(m.parser) && |m.queued| == m.parser.framesTaken && Settled(m.parser) != []
    ensures var p := m.parser;
            var q := p.(rawTaken := |p.kept|);
            && TakeMachine(m) == (Machine(q, if Recorded(p.phase) then m.stale + |Settled(p)| else 0, m.queued),
                                  Some(Frame(TYPE_RAW, Settled(p))))
            && Settled(q) == [] && [] + OpenBytes(p.ct, p.phase) + [] == OpenBytes(p.ct, p.phase)
  {
  }

  lemma FittingByte(m: Machine, b: byte, received: seq<byte>)
    requires Accounts(m.parser, received) && |m.queued| == |m.parser.frames| && Occupancy(m.parser) < RAW_BUF_CAP
    ensures var q := Apply(m.parser, ByteMove(m.parser.ct, m.parser.phase, b));
            && FeedMachine(m, b) == Placed(m, q, b) && Accounts(q, received + [b])
            && q.framesTaken == m.parser.framesTaken
            && (Placed(m, q, b).Some? ==> Placed(m, q, b).value.parser == q && |Placed(m, q, b).value.queued| == |q.frames|)
  {
    FeedKeeps(m.parser, b, received);
    MachineInStep(m, b);
    FeedTakesNone(m.parser, b);
  }

  lemma MachineFull(m: Machine, b: byte)
    requires Occupancy(m.parser) >= RAW_BUF_CAP
    ensures FeedMachine(m, b) == Some(Moved(m, Apply(m.parser, OverflowMove(m.parser.ct, m.parser.phase, b))))
  {
  }

  lemma NothingOpen(m: Machine)
    requires OpenBytes(m.parser.ct, m.parser.phase) == [] && m.stale == 0
    ensures TimeOutMachine(m) == m
  {
  }

  /** With any other last byte the attempt is given up. */
  lemma RefusedMove(ct: ChecksumType, ph: Phase, ch: byte)
    requires ph.InSum? && |ph.sum| + 1 == EncodedLen(ct) && !Accepted(ct, ph, ch)
    ensures SumMove(ct, ph, ch) == GiveUp(ct, ph, [ch])
  {
  }

  /** What the unescaping pass has done, in front of what it still finds. */
  function Behind(done: seq<byte>, rest: Option<seq<byte>>): Option<seq<byte>> {
    match rest case None => None case Some(more) => Some(done + more)
  }

  lemma NothingBefore(rest: Option<seq<byte>>)
    ensures Behind([], rest) == rest
  {
    if rest.Some? { assert [] + rest.value == rest.value; }
  }

  lemma OneBefore(done: seq<byte>, b: byte, rest: Option<seq<byte>>)
    ensures Behind(done, Prepend(b, rest)) == Behind(done + [b], rest)
  {
    if rest.Some? { SeqAssoc(done, [b], rest.value); }
  }

  /** The last byte of an accepted checksum completes the frame. */
  lemma AcceptedMove(ct: ChecksumType, ph: Phase, ch: byte)
    requires ph.InSum? && |ph.sum| + 1 == EncodedLen(ct) && SumAccepted(ct, ph.ty, ph.data, ph.sum + [ch])
    ensures SumMove(ct, ph, ch) == Move([], Some(Framed(OpenBytes(ct, ph) + [ch], Frame(ph.ty, ph.data))), AfterFrame)
  {
  }

  /** Queue and parser behind a byte, put together. */
  lemma PlacedTogether(m: Machine, q: Parser, b: byte, handed: seq<Frame>, before: seq<Frame>, after: seq<Frame>)
    requires m.queued == handed + before
    ensures !Accepted(m.parser.ct, m.parser.phase, b) ==> Placed(m, q, b) == Some(Moved(m, q))
    ensures Accepted(m.parser.ct, m.parser.phase, b) ==>
      var read := ReadBack(m.parser.ct, m.parser.phase, b, m.stale);
      && (Placed(m, q, b).None? <==> read.None?)
      && (read.Some? && after == before + [read.value] ==> Placed(m, q, b) == Some(Machine(q, 0, handed + after)))
  {
    if Accepted(m.parser.ct, m.parser.phase, b) {
      var read := ReadBack(m.parser.ct, m.parser.phase, b, m.stale);
      if read.Some? { SeqAssoc(handed, before, [read.value]); }
    }
  }

  /** Saturating clock difference. */
  function Elapsed(now: nat, since: nat): nat {
    if now < since then 0 else now - since
  }

  class Decoder {
    const checksumType: ChecksumType
    var state: State
    var raw: seq<byte>
    var rawHead: nat
    var dataEnd: nat
    var dataLen: nat
    var running: Running
    var checksumLen: nat
    var checksumBytes: seq<byte>
    var frames: seq<Frame>
    var dropCount: nat
    var timeoutMs: nat
    var openLenAtLastTick: nat
    var timeOfLastProgress: nat

    ghost var parser: Parser
    ghost var stale: nat
    ghost var handed: seq<Frame>
    ghost var received: seq<byte>

    /** The machine these fields stand for. */
    ghost function Now(): Machine
      reads this
    {
      Machine(parser, stale, handed + frames)
    }

    /** One frame has been handed out or is queued for each that the parser has seen. */
    ghost predicate QueueMatches()
      reads this
    {
      |handed| == parser.framesTaken && |handed + frames| == |parser.frames|
    }

    /** The frame that a byte has queued behind `before`, if any; or reading it back has failed. */
    ghost predicate Queues(before: Machine, old_: seq<Frame>, ch: byte, crashed: bool)
      reads this
    {
      if Accepted(checksumType, before.parser.phase, ch) then
        var read := ReadBack(checksumType, before.parser.phase, ch, before.stale);
        (crashed <==> read.None?) && (!crashed ==> frames == old_ + [read.value])
      else !crashed && frames == old_
    }

    /** The buffer describes the machine, with `extra` appended to it. */
    ghost predicate BufferMatches(extra: seq<byte>)
      reads this
    {
      && parser.ct == checksumType
      && raw == Settled(parser) + OpenBytes(checksumType, parser.phase) + extra
      && rawHead == |Settled(parser)|
      && dropCount == parser.drops
    }

    ghost predicate Represents(extra: seq<byte>)
      reads this, running
    {
      BufferMatches(extra) && state == StateOf(parser.phase) && RunningMatches() && CountersMatch()
    }

    ghost predicate RunningMatches()
      reads this, running
    {
      && running.Valid() && running.kind == checksumType
      && var fed := FedBytes(checksumType, parser.phase); fed.Some? ==> running.fed == fed.value
    }

    ghost predicate CountersMatch()
      reads this
    {
      match parser.phase
      case AfterSof => dataLen == 0
      case InData(_, _, data) => dataLen == |data|
      case InEscape(_, _, data) => dataLen == |data|
      case AfterEof(_, body, _) => dataEnd == rawHead + 2 + |body| + stale
      case InSum(_, body, _, sum) =>
        dataEnd == rawHead + 2 + |body| + stale && checksumBytes == sum && checksumLen == EncodedLen(checksumType)
      case _ => true
    }

    ghost predicate Valid()
      reads this, running
    {
      Represents([]) && Accounts(parser, received) && QueueMatches() && (!Recorded(parser.phase) ==> stale == 0)
    }

    constructor (ct: ChecksumType)
      ensures Valid() && fresh(running)
      ensures Now() == Start(ct) && received == []
      ensures checksumType == ct && timeoutMs == 500 && openLenAtLastTick == 0 && timeOfLastProgress == 0
    {
      checksumType := ct;
      state, raw, rawHead, dataEnd, dataLen := State.Idle, [], 0, 0, 0;
      running := new Running(ct);
      checksumLen, checksumBytes, frames, dropCount := 0, [], [], 0;
      timeoutMs, openLenAtLastTick, timeOfLastProgress := 500, 0, 0;
      parser, stale, handed, received := Fresh(ct), 0, [], [];
    }

    // -------------------------------------------------------------- one received byte, by case

    /** The buffer has room, holds `extra` behind the attempt, and the attempt is within bounds. */
    ghost predicate Holding(extra: seq<byte>)
      reads this, running
    {
      && Represents(extra) && Sound(parser) && Occupancy(parser) < RAW_BUF_CAP
      && (!Recorded(parser.phase) ==> stale == 0)
    }

    /** Fold the open attempt, including the byte just buffered, into settled raw content. */
    method ResolveRaw(ghost ch: byte)
      requires BufferMatches([ch]) && CursorsFit(parser)
      requires running.Valid() && running.kind == checksumType
      modifies `rawHead, `state, `parser
      ensures Represents([]) && parser == Apply(old(parser), GiveUp(checksumType, old(parser).phase, [ch]))
    {
      ghost var m := GiveUp(checksumType, parser.phase, [ch]);
      assert m.settle + [] == m.settle;
      BufferAfter(parser, m, ch);
      parser := Apply(parser, m);
      rawHead := |raw|;
      state := State.Idle;
    }

    /** A fresh checksum that has been fed the SOF. */
    method NewAttempt()
      modifies `running, `dataLen, `state
      ensures fresh(running) && running.Valid() && running.kind == checksumType && running.fed == [SOF]
      ensures dataLen == 0 && state == Sof
    {
      running := new Running(checksumType);
      running.Update(SOF);
      dataLen := 0;
      state := Sof;
    }

    /** SOF: settle the old attempt without it and start a new one. */
    method Restart()
      requires Holding([SOF])
      modifies `rawHead, `running, `dataLen, `state, `parser
      ensures Represents([]) && fresh(running)
      ensures parser == Apply(old(parser), Move(OpenBytes(checksumType, old(parser).phase), None, AfterSof))
    {
      ghost var m := Move(OpenBytes(checksumType, parser.phase), None, AfterSof);
      assert OpenBytes(checksumType, AfterSof) == [SOF];
      BufferAfter(parser, m, SOF);
      parser := Apply(parser, m);
      rawHead := |raw| - 1;
      NewAttempt();
    }

    /** Feed `fedByte` to the running checksum while the attempt grows by the buffered byte. */
    method Grow(ghost next: Phase, ghost ch: byte, fedByte: byte)
      requires BufferMatches([ch]) && RunningMatches() && CursorsFit(parser)
      requires OpenBytes(checksumType, next) == OpenBytes(checksumType, parser.phase) + [ch]
      requires FedBytes(checksumType, parser.phase).Some?
      requires FedBytes(checksumType, next) == Some(FedBytes(checksumType, parser.phase).value + [fedByte])
      requires Feedable(checksumType, |running.fed| + 1)
      modifies running, `parser
      ensures BufferMatches([]) && RunningMatches() && parser == Apply(old(parser), GoTo(next))
    {
      BufferAfter(parser, GoTo(next), ch);
      running.Update(fedByte);
      parser := Apply(parser, GoTo(next));
    }

    method TypeByte(ch: byte)
      requires Holding([ch]) && parser.phase.AfterSof?
      modifies running, `state, `parser
      ensures Represents([]) && parser == Apply(old(parser), GoTo(InData(ch, [], [])))
    {
      assert [SOF, ch] + [] == [SOF] + [ch];
      Grow(InData(ch, [], []), ch, ch);
      state := Data;
    }

    method EscapeByte(ch: byte)
      requires Holding([ESC]) && parser.phase.InData?
      modifies `state, `parser
      ensures Represents([])
      ensures parser == Apply(old(parser), DataMove(checksumType, old(parser).phase, ESC))
    {
      parser := Apply(parser, DataMove(checksumType, parser.phase, ESC));
      state := DataEsc;
    }

    /** A literal payload byte. */
    method PlainByte(ch: byte)
      requires Holding([ch]) && parser.phase.InData? && ch != ESC && ch != EOF
      modifies running, `dataLen, `parser
      ensures Represents([])
      ensures parser == Apply(old(parser), DataMove(checksumType, old(parser).phase, ch))
    {
      ghost var InData(ty, body, data) := parser.phase;
      UnescapeShrinks(body);
      SeqAssoc([SOF, ty], data, [ch]);
      SeqAssoc([SOF, ty], body, [ch]);
      Grow(InData(ty, body + [ch], data + [ch]), ch, ch);
      dataLen := dataLen + 1;
    }

    /** The byte after ESC is always taken as the escaped literal. */
    method EscapedByte(ch: byte)
      requires Holding([ch]) && parser.phase.InEscape?
      modifies running, `dataLen, `state, `parser
      ensures Represents([])
      ensures parser == Apply(old(parser), ByteMove(checksumType, old(parser).phase, ch))
    {
      ghost var InEscape(ty, body, data) := parser.phase;
      UnescapeShrinks(body);
      var decoded := UnescapeByte(ch);
      SeqAssoc([SOF, ty], data, [decoded]);
      SeqAssoc([SOF, ty], body, [ESC] + [ch]);
      SeqAssoc([SOF, ty] + body, [ESC], [ch]);
      Grow(InData(ty, body + [ESC, ch], data + [decoded]), ch, decoded);
      dataLen := dataLen + 1;
      state := Data;
    }

    /** The last EOF was seen: the checksum follows. */
    method OpenChecksum()
      modifies `state, `checksumLen, `checksumBytes
      ensures state == Sum && checksumBytes == [] && checksumLen == EncodedLen(checksumType)
    {
      checksumBytes := [];
      checksumLen := EncodedLen(checksumType);
      state := Sum;
    }

    /** The payload is even and the checksum wants whole words: a second EOF is to follow. */
    method AwaitPadding()
      requires Holding([EOF]) && parser.phase.InData? && EofCount(checksumType, |parser.phase.data|) == 2
      requires dataEnd == |raw| - 1
      modifies running, `state, `parser
      ensures Represents([])
      ensures parser == Apply(old(parser), DataMove(checksumType, old(parser).phase, EOF))
    {
      ghost var InData(ty, body, data) := parser.phase;
      UnescapeShrinks(body);
      Grow(AfterEof(ty, body, data), EOF, EOF);
      state := Eof;
    }

    /** The checksum follows at once. */
    method AwaitSum()
      requires Holding([EOF]) && parser.phase.InData? && EofCount(checksumType, |parser.phase.data|) != 2
      requires dataEnd == |raw| - 1
      modifies running, `state, `checksumLen, `checksumBytes, `parser
      ensures Represents([])
      ensures parser == Apply(old(parser), DataMove(checksumType, old(parser).phase, EOF))
    {
      hide Running.Valid;
      ghost var InData(ty, body, data) := parser.phase;
      UnescapeShrinks(body);
      EofGrows(checksumType, ty, body, data);
      Grow(InSum(ty, body, data, []), EOF, EOF);
      OpenChecksum();
    }

    /** EOF behind the payload: wait for the padding EOF or go straight to the checksum. */
    method FirstEof()
      requires Holding([EOF]) && parser.phase.InData?
      modifies running, `dataEnd, `state, `checksumLen, `checksumBytes, `parser
      ensures Represents([])
      ensures parser == Apply(old(parser), DataMove(checksumType, old(parser).phase, EOF))
    {
      dataEnd := |raw| - 1;
      if checksumType.Internet? && dataLen % 2 == 0 {
        AwaitPadding();
      } else {
        AwaitSum();
      }
    }

    method SecondEof()
      requires Holding([EOF]) && parser.phase.AfterEof?
      modifies running, `state, `checksumLen, `checksumBytes, `parser
      ensures Represents([])
      ensures parser == Apply(old(parser), ByteMove(checksumType, old(parser).phase, EOF))
    {
      ghost var AfterEof(ty, body, data) := parser.phase;
      UnescapeShrinks(body);
      EofGrows(checksumType, ty, body, data);
      Grow(InSum(ty, body, data, []), EOF, EOF);
      OpenChecksum();
    }

    // -------------------------------------------------------------- checksum and completion

    method ChecksumOk() returns (ok: bool)
      requires running.Valid() && running.kind == checksumType
      ensures ok <==> IsIgnoreSentinel(checksumType, checksumBytes)
                      || WireForm(checksumType, running.fed) == checksumBytes
    {
      if IsIgnoreSentinel(checksumType, checksumBytes) {
        return true;
      }
      var sum := running.Finalize();
      return sum == checksumBytes;
    }

    /** Unescape the recorded payload span; `None` where an index falls behind the buffer. */
    method DecodeBody() returns (decoded: Option<seq<byte>>)
      ensures decoded == DecodeSpan(raw, rawHead + 2, dataEnd)
    {
      var done: seq<byte> := [];
      var i := rawHead + 2;
      NothingBefore(DecodeSpan(raw, i, dataEnd));
      while i < dataEnd
        invariant rawHead + 2 <= i
        invariant DecodeSpan(raw, rawHead + 2, dataEnd) == Behind(done, DecodeSpan(raw, i, dataEnd))
        decreases dataEnd - i
      {
        if i >= |raw| { return None; }
        var b := raw[i];
        i := i + 1;
        if b == ESC {
          if i >= |raw| { return None; }
          b := UnescapeByte(raw[i]);
          i := i + 1;
        }
        OneBefore(done, b, DecodeSpan(raw, i, dataEnd));
        done := done + [b];
      }
      assert done + [] == done;
      return Some(done);
    }

    /** The frame of a complete attempt, read back from the buffer. */
    method BufferedFrame(ghost ch: byte) returns (f: Option<Frame>)
      requires BufferMatches([ch]) && parser.phase.InSum?
      requires dataEnd == rawHead + 2 + |parser.phase.body| + stale
      ensures f == ReadBack(checksumType, parser.phase, ch, stale)
    {
      ghost var before, open := Settled(parser), OpenBytes(checksumType, parser.phase) + [ch];
      SeqAssoc(before, OpenBytes(checksumType, parser.phase), [ch]);
      TypeInFront(checksumType, parser.phase, ch);
      assert raw[rawHead + 1] == open[1];
      ReadBackInBuffer(checksumType, parser.phase, ch, stale, before, rawHead + 2);
      var typeByte := raw[rawHead + 1];
      var decoded := DecodeBody();
      f := WithType(typeByte, decoded);
    }

    /** The checksum is complete and accepted: queue the frame and drop its bytes from the buffer. */
    method ResolveSuccess(ghost ch: byte) returns (crashed: bool)
      requires BufferMatches([ch]) && CursorsFit(parser) && parser.phase.InSum?
      requires running.Valid() && running.kind == checksumType
      requires dataEnd == rawHead + 2 + |parser.phase.body| + stale
      requires Accepted(checksumType, parser.phase, ch)
      modifies `frames, `raw, `state, `parser
      ensures crashed <==> ReadBack(checksumType, old(parser).phase, ch, old(stale)).None?
      ensures !crashed ==> Represents([]) && parser == Apply(old(parser), SumMove(checksumType, old(parser).phase, ch))
      ensures !crashed ==> frames == old(frames) + [ReadBack(checksumType, old(parser).phase, ch, old(stale)).value]
      ensures !crashed ==> parser.phase.AfterFrame?
    {
      ghost var wire := OpenBytes(checksumType, parser.phase) + [ch];
      ghost var meant := Frame(parser.phase.ty, parser.phase.data);
      var f := BufferedFrame(ch);
      if f.None? { return true; }
      AcceptedMove(checksumType, parser.phase, ch);
      QueueFrame(f.value, ch, Move([], Some(Framed(wire, meant)), AfterFrame));
      return false;
    }

    /** A frame enters the queue, and its bytes leave the buffer. */
    method QueueFrame(f: Frame, ghost ch: byte, ghost m: Move)
      requires BufferMatches([ch]) && CursorsFit(parser)
      requires running.Valid() && running.kind == checksumType
      requires m.settle == [] && m.piece.Some? && m.piece.value.Framed? && m.next == AfterFrame
      modifies `frames, `raw, `state, `parser
      ensures Represents([]) && parser == Apply(old(parser), m) && frames == old(frames) + [f]
    {
      ApplyQueues(parser, m);
      frames := frames + [f];
      raw := raw[..rawHead];
      state := PostFrame;
      parser := Apply(parser, m);
    }

    /** A checksum byte that is not the last one. */
    method GrowSum(ghost ch: byte)
      requires BufferMatches([ch]) && RunningMatches() && CursorsFit(parser) && parser.phase.InSum? && state == Sum
      requires checksumBytes == parser.phase.sum + [ch] && checksumLen == EncodedLen(checksumType)
      requires dataEnd == rawHead + 2 + |parser.phase.body| + stale && |checksumBytes| < checksumLen
      modifies `parser
      ensures Represents([])
      ensures parser == Apply(old(parser), SumMove(checksumType, old(parser).phase, ch))
    {
      ghost var InSum(ty, body, data, sum) := parser.phase;
      SeqAssoc([SOF, ty] + body + Eofs(checksumType, |data|), sum, [ch]);
      ghost var m := GoTo(InSum(ty, body, data, sum + [ch]));
      BufferAfter(parser, m, ch);
      parser := Apply(parser, m);
    }

    /** Whether the complete checksum is accepted. */
    method Verdict(ghost ch: byte) returns (ok: bool)
      requires RunningMatches() && parser.phase.InSum? && Encodable(checksumType, |parser.phase.data|)
      requires checksumBytes == parser.phase.sum + [ch] && |checksumBytes| == EncodedLen(checksumType)
      ensures ok <==> Accepted(checksumType, parser.phase, ch)
    {
      ghost var InSum(ty, body, data, sum) := parser.phase;
      assert FedBytes(checksumType, parser.phase) == Some(Logical(checksumType, ty, data));
      ok := ChecksumOk();
    }

    /** The checksum is complete and not accepted. */
    method RefuseSum(ghost ch: byte)
      requires BufferMatches([ch]) && CursorsFit(parser) && parser.phase.InSum?
      requires running.Valid() && running.kind == checksumType
      requires |parser.phase.sum| + 1 == EncodedLen(checksumType) && !Accepted(checksumType, parser.phase, ch)
      modifies `rawHead, `state, `parser
      ensures Represents([]) && parser.phase.Idle?
      ensures parser == Apply(old(parser), SumMove(checksumType, old(parser).phase, ch))
    {
      RefusedMove(checksumType, parser.phase, ch);
      ResolveRaw(ch);
    }

    /** The checksum is complete: queue the frame, or give the attempt up. */
    method LastSumByte(ghost ch: byte) returns (checksumError: bool, crashed: bool)
      requires BufferMatches([ch]) && RunningMatches() && CursorsFit(parser) && parser.phase.InSum?
      requires checksumBytes == parser.phase.sum + [ch] && |checksumBytes| == EncodedLen(checksumType)
      requires dataEnd == rawHead + 2 + |parser.phase.body| + stale
      requires Encodable(checksumType, |parser.phase.data|)
      modifies `frames, `raw, `rawHead, `state, `parser
      ensures Queues(old(Now()), old(frames), ch, crashed)
      ensures !crashed ==> parser == Apply(old(parser), SumMove(checksumType, old(parser).phase, ch))
      ensures !crashed ==> Represents([]) && (checksumError <==> parser.phase.Idle?)
    {
      hide Running.Valid;
      var ok := Verdict(ch);
      if ok {
        crashed := ResolveSuccess(ch);
        return false, crashed;
      }
      RefuseSum(ch);
      return true, false;
    }

    method SumByte(ch: byte) returns (checksumError: bool, crashed: bool)
      requires Holding([ch]) && parser.phase.InSum?
      modifies `checksumBytes, `frames, `raw, `rawHead, `state, `parser
      ensures Queues(old(Now()), old(frames), ch, crashed)
      ensures !crashed ==> parser == Apply(old(parser), SumMove(checksumType, old(parser).phase, ch))
      ensures !crashed ==> Represents([]) && (checksumError <==> parser.phase.Idle?)
    {
      UnescapeShrinks(parser.phase.body);
      checksumBytes := checksumBytes + [ch];
      if |checksumBytes| < checksumLen {
        GrowSum(ch);
        return false, false;
      }
      checksumError, crashed := LastSumByte(ch);
    }

    // -------------------------------------------------------------- the public operations

    function Status(checksumError: bool, bufferFull: bool): InjectStatus
      reads this
    {
      InjectStatus(frames != [] || rawHead > 0, checksumError, bufferFull)
    }

    /** EOF outside an escape: close the payload, complete the padding, or settle a stray byte. */
    method EofByte()
      requires Holding([EOF]) && (parser.phase.Idle? || parser.phase.InData? || parser.phase.AfterEof?)
      modifies running, `dataEnd, `state, `checksumLen, `checksumBytes, `rawHead, `parser
      ensures Represents([]) && parser == Apply(old(parser), ByteMove(checksumType, old(parser).phase, EOF))
      ensures parser.phase.Idle? ==> old(parser.phase.Idle?)
    {
      hide Running.Valid;
      if state == Data {
        FirstEof();
      } else if state == Eof {
        SecondEof();
      } else {
        ResolveRaw(EOF);
      }
    }

    /** Any byte that is neither a delimiter nor ESC, or that is the target of an escape. */
    method BodyByte(ch: byte)
      requires Holding([ch])
      requires parser.phase.InEscape? || (ch != SOF && ch != EOF && (parser.phase.InData? ==> ch != ESC))
      requires parser.phase.Idle? || parser.phase.InData? || parser.phase.InEscape? || parser.phase.AfterEof?
      modifies running, `dataLen, `state, `rawHead, `parser
      ensures Represents([]) && parser == Apply(old(parser), ByteMove(checksumType, old(parser).phase, ch))
    {
      if state == Eof {
        ResolveRaw(ch);
      } else if state == DataEsc {
        EscapedByte(ch);
      } else if state == Data {
        PlainByte(ch);
      } else {
        ResolveRaw(ch);
      }
    }

    /** The byte behind SOF: the type, unless it is EOF. */
    method HeaderByte(ch: byte)
      requires Holding([ch]) && parser.phase.AfterSof? && ch != SOF
      modifies running, `rawHead, `state, `parser
      ensures Represents([]) && parser == Apply(old(parser), ByteMove(checksumType, old(parser).phase, ch))
    {
      if ch == EOF {
        ResolveRaw(ch);
      } else {
        TypeByte(ch);
      }
    }

    /** A buffered byte outside the checksum and the trailer of a frame. */
    method DispatchOpen(ch: byte)
      requires Holding([ch]) && !parser.phase.AfterFrame? && !parser.phase.AfterFrameCr? && !parser.phase.InSum?
      modifies running, `running, `rawHead, `state, `dataEnd, `dataLen, `checksumLen, `checksumBytes, `parser
      ensures Represents([]) && (running == old(running) || fresh(running))
      ensures parser == Apply(old(parser), ByteMove(checksumType, old(parser).phase, ch))
    {
      if ch == SOF && state != DataEsc {
        Restart();
      } else if state == Sof {
        HeaderByte(ch);
      } else if ch == ESC && state == Data {
        EscapeByte(ch);
      } else if ch == EOF && state != DataEsc {
        EofByte();
      } else {
        BodyByte(ch);
      }
    }

    /** A buffered byte outside the trailer of a frame. */
    method Dispatch(ch: byte) returns (checksumError: bool, crashed: bool)
      requires Holding([ch]) && !parser.phase.AfterFrame? && !parser.phase.AfterFrameCr?
      modifies running, `running, `raw, `rawHead, `state, `dataEnd, `dataLen, `checksumLen, `checksumBytes, `frames,
               `parser
      ensures running == old(running) || fresh(running)
      ensures Queues(old(Now()), old(frames), ch, crashed)
      ensures !crashed ==> parser == Apply(old(parser), ByteMove(checksumType, old(parser).phase, ch))
      ensures !crashed ==> Represents([]) && (checksumError <==> old(parser.phase.InSum?) && parser.phase.Idle?)
    {
      if state == Sum {
        checksumError, crashed := SumByte(ch);
      } else {
        DispatchOpen(ch);
        checksumError, crashed := false, false;
      }
    }

    /** The buffer is full: the byte is dropped and the open attempt is given up. */
    method Overflow(ghost ch: byte)
      requires Represents([]) && Sound(parser)
      modifies `rawHead, `state, `dropCount, `parser
      ensures Represents([]) && parser == Apply(old(parser), OverflowMove(checksumType, old(parser).phase, ch))
    {
      ghost var m := OverflowMove(checksumType, parser.phase, ch);
      ApplyQueues(parser, m);
      parser := Apply(parser, m);
      rawHead := |raw|;
      state := State.Idle;
      dropCount := dropCount + 1;
    }

    /** CR or LF right behind a decoded frame is consumed without a trace in the buffer. */
    method Swallow(ch: byte)
      requires Holding([ch])
      requires (parser.phase.AfterFrame? && ch == CR) || (parser.phase.AfterFrameCr? && ch == LF)
      modifies `raw, `state, `parser
      ensures Represents([]) && parser == Apply(old(parser), ByteMove(checksumType, old(parser).phase, ch))
    {
      ghost var m := ByteMove(checksumType, parser.phase, ch);
      ApplyQueues(parser, m);
      raw := raw[..|raw| - 1];
      state := if state == PostFrame then PostFrameCr else State.Idle;
      parser := Apply(parser, m);
    }

    /** Without its trailer byte a frame is simply over. */
    lemma ForgetTrailer(p: Parser, ch: byte)
      requires (p.phase.AfterFrame? && ch != CR) || (p.phase.AfterFrameCr? && ch != LF)
      ensures Apply(p.(phase := Phase.Idle), ByteMove(p.ct, Phase.Idle, ch)) == Apply(p, ByteMove(p.ct, p.phase, ch))
    {
    }

    method EndTrailer(ghost ch: byte)
      requires Holding([ch]) && (parser.phase.AfterFrame? || parser.phase.AfterFrameCr?)
      modifies `state, `parser
      ensures Holding([ch]) && parser == old(parser).(phase := Phase.Idle)
    {
      state := State.Idle;
      parser := parser.(phase := Phase.Idle);
    }

    /** Behind a frame: swallow the expected trailer byte, or take the byte as any other. */
    method TrailerByte(ch: byte) returns (swallowed: bool)
      requires Holding([ch]) && (parser.phase.AfterFrame? || parser.phase.AfterFrameCr?)
      modifies `raw, `state, `parser
      ensures swallowed ==>
        Represents([]) && parser == Apply(old(parser), ByteMove(checksumType, old(parser).phase, ch))
      ensures !swallowed ==> Holding([ch]) && parser == old(parser).(phase := Phase.Idle)
      ensures !swallowed ==>
        Apply(parser, ByteMove(checksumType, Phase.Idle, ch)) == Apply(old(parser), ByteMove(checksumType, old(parser).phase, ch))
    {
      swallowed := ch == (if state == PostFrame then CR else LF);
      if swallowed {
        Swallow(ch);
      } else {
        ForgetTrailer(parser, ch);
        EndTrailer(ch);
      }
    }

    /** A buffered byte behind a frame. */
    method AcceptTrailer(ch: byte)
      requires Holding([ch]) && (parser.phase.AfterFrame? || parser.phase.AfterFrameCr?)
      modifies running, `running, `raw, `rawHead, `state, `dataEnd, `dataLen, `checksumLen, `checksumBytes, `parser
      ensures Represents([]) && (running == old(running) || fresh(running))
      ensures parser == Apply(old(parser), ByteMove(checksumType, old(parser).phase, ch))
    {
      var swallowed := TrailerByte(ch);
      if !swallowed { DispatchOpen(ch); }
    }

    /** A byte for which the buffer has room. */
    method Accept(ch: byte) returns (checksumError: bool, crashed: bool)
      requires Holding([])
      modifies running, `running, `raw, `rawHead, `state, `dataEnd, `dataLen, `checksumLen, `checksumBytes, `frames,
               `parser
      ensures running == old(running) || fresh(running)
      ensures Queues(old(Now()), old(frames), ch, crashed)
      ensures !crashed ==> parser == Apply(old(parser), ByteMove(checksumType, old(parser).phase, ch))
      ensures !crashed ==> Represents([]) && (checksumError <==> old(parser.phase.InSum?) && parser.phase.Idle?)
    {
      hide ByteMove, Apply, OpenBytes, ReadBack, Running.Valid;
      raw := raw + [ch];
      if state == PostFrame || state == PostFrameCr {
        AcceptTrailer(ch);
        return false, false;
      }
      checksumError, crashed := Dispatch(ch);
    }

    /** A byte for which there is room. */
    method InjectFitting(ch: byte) returns (checksumError: bool, crashed: bool)
      requires Holding([])
      modifies running, `running, `raw, `rawHead, `state, `dataEnd, `dataLen, `checksumLen, `checksumBytes, `frames,
               `parser, `stale
      ensures running == old(running) || fresh(running)
      ensures var next := Placed(old(Now()), Apply(old(parser), ByteMove(checksumType, old(parser).phase, ch)), ch);
        (crashed <==> next.None?) && (!crashed ==> Some(Now()) == next)
      ensures !crashed ==> Represents([]) && (!Recorded(parser.phase) ==> stale == 0)
      ensures !crashed ==> (checksumError <==> old(parser.phase.InSum?) && parser.phase.Idle?)
    {
      ghost var before, queue := Now(), frames;
      checksumError, crashed := Accept(ch);
      PlacedTogether(before, Apply(before.parser, ByteMove(checksumType, before.parser.phase, ch)), ch, handed, queue, frames);
      if !Recorded(parser.phase) { stale := 0; }
    }

    method InjectOverflowing(ghost ch: byte)
      requires Represents([]) && Sound(parser) && Occupancy(parser) >= RAW_BUF_CAP
      modifies `rawHead, `state, `dropCount, `parser, `stale
      ensures Now() == Moved(old(Now()), Apply(old(parser), OverflowMove(checksumType, old(parser).phase, ch)))
      ensures Represents([]) && stale == 0 && parser.phase.Idle?
    {
      hide Running.Valid;
      Overflow(ch);
      stale := 0;
    }

    /** A byte for which there is room, entered into the books. */
    method EnterFitting(ch: byte) returns (checksumError: bool, crashed: bool)
      requires Valid() && |raw| < RAW_BUF_CAP
      modifies running, `running, `raw, `rawHead, `state, `dataEnd, `dataLen, `checksumLen, `checksumBytes, `frames,
               `parser, `stale, `received
      ensures running == old(running) || fresh(running)
      ensures crashed <==> FeedMachine(old(Now()), ch).None?
      ensures !crashed ==> Valid() && Some(Now()) == FeedMachine(old(Now()), ch) && received == old(received) + [ch]
      ensures !crashed ==> (checksumError <==> old(parser.phase.InSum?) && parser.phase.Idle?)
    {
      hide Accounts, Sound, ByteMove, Apply, ReadBack, OpenBytes, Running.Valid;
      AccountsFit(parser, received);
      ghost var q := Apply(parser, ByteMove(checksumType, parser.phase, ch));
      ghost var next := Placed(Now(), q, ch);
      FittingByte(Now(), ch, received);
      received := received + [ch];
      checksumError, crashed := InjectFitting(ch);
      assert !crashed ==> Some(Now()) == next && parser == q;
    }

    method EnterOverflowing(ghost ch: byte)
      requires Valid() && |raw| >= RAW_BUF_CAP
      modifies `rawHead, `state, `dropCount, `parser, `stale, `received
      ensures Valid() && Some(Now()) == FeedMachine(old(Now()), ch) && received == old(received) + [ch]
      ensures state == State.Idle
    {
      hide Running.Valid;
      FeedKeeps(parser, ch, received);
      MachineInStep(Now(), ch);
      MachineFull(Now(), ch);
      received := received + [ch];
      InjectOverflowing(ch);
    }

    /** Feed one received byte; `None` when reading a frame back fails on an index, and the program stops. */
    method Inject(ch: byte) returns (st: Option<InjectStatus>)
      requires Valid()
      modifies running, `running, `raw, `rawHead, `state, `dataEnd, `dataLen, `checksumLen, `checksumBytes, `frames,
               `dropCount, `parser, `stale, `received
      ensures running == old(running) || fresh(running)
      ensures st.None? <==> FeedMachine(old(Now()), ch).None?
      ensures st.Some? ==> Valid() && Some(Now()) == FeedMachine(old(Now()), ch) && received == old(received) + [ch]
      ensures st.Some? ==> (st.value.frameReady <==> frames != [] || rawHead > 0)
      ensures st.Some? ==> (st.value.bufferFull <==> old(|raw|) >= RAW_BUF_CAP)
      ensures st.Some? ==>
        (st.value.checksumError <==> !st.value.bufferFull && old(state == Sum) && state == State.Idle)
    {
      if |raw| >= RAW_BUF_CAP {
        EnterOverflowing(ch);
        return Some(Status(false, true));
      }
      var checksumError, crashed := EnterFitting(ch);
      return if crashed then None else Some(Status(checksumError, false));
    }

    /** Fold the open attempt into settled raw content. */
    method GiveUpOpen()
      requires BufferMatches([]) && CursorsFit(parser) && |raw| > rawHead
      modifies `rawHead, `state, `parser
      ensures BufferMatches([]) && state == State.Idle && parser == TimeOut(old(parser)) && parser.phase.Idle?
    {
      ghost var m := GiveUp(checksumType, parser.phase, []);
      ApplyQueues(parser, m);
      assert m.settle + [] == m.settle;
      parser := TimeOut(parser);
      rawHead := |raw|;
      state := State.Idle;
    }

    /** The attempt given up, entered into the books. */
    method GiveUpStalled()
      requires Valid() && |raw| > rawHead
      modifies `rawHead, `state, `parser, `stale
      ensures Valid() && Now() == TimeOutMachine(old(Now()))
    {
      hide Accounts, Apply, Running.Valid;
      AccountsFit(parser, received);
      TimeOutFrames(parser);
      TimeOutKeeps(parser, received);
      GiveUpOpen();
      stale := 0;
    }

    /** Recover a stalled attempt as raw content once `timeoutMs` pass without progress between ticks. */
    method Tick(now: nat) returns (st: InjectStatus)
      requires Valid()
      modifies `rawHead, `state, `openLenAtLastTick, `timeOfLastProgress, `parser, `stale
      ensures Valid() && st == InjectStatus(frames != [] || rawHead > 0, false, false)
      ensures openLenAtLastTick == |OpenBytes(checksumType, old(parser).phase)|
      ensures openLenAtLastTick != old(openLenAtLastTick) ==>
                Now() == old(Now()) && timeOfLastProgress == now
      ensures openLenAtLastTick == old(openLenAtLastTick) ==>
                && timeOfLastProgress == old(timeOfLastProgress)
                && Now() == if (if now < timeOfLastProgress then 0 else now - timeOfLastProgress) >= timeoutMs
                            then TimeOutMachine(old(Now())) else old(Now())
    {
      hide Running.Valid;
      var openLen := |raw| - rawHead;
      if openLen != openLenAtLastTick {
        openLenAtLastTick := openLen;
        timeOfLastProgress := now;
      } else {
        if openLen > 0 && Elapsed(now, timeOfLastProgress) >= timeoutMs {
          GiveUpStalled();
        } else if openLen == 0 {
          NothingOpen(Now());
        }
      }
      st := Status(false, false);
    }

    method PopFrame() returns (f: Frame)
      requires Represents([]) && QueueMatches() && frames != []
      modifies `frames, `parser, `handed
      ensures TakeMachine(old(Now())) == (Now(), Some(f)) && Represents([]) && QueueMatches()
    {
      hide Running.Valid;
      f := frames[0];
      assert handed + frames == handed + [f] + frames[1..];
      handed := handed + [f];
      frames := frames[1..];
      parser := parser.(framesTaken := parser.framesTaken + 1);
    }

    /** The recorded end stays where it is, and is now too large by what has been drained. */
    method DrainRaw() returns (f: Frame)
      requires Represents([]) && CursorsFit(parser) && QueueMatches() && frames == [] && rawHead > 0
      modifies `raw, `rawHead, `parser, `stale
      ensures TakeMachine(old(Now())) == (Now(), Some(f)) && Represents([]) && QueueMatches()
      ensures raw == old(raw[rawHead..]) && rawHead == 0
    {
      ghost var open, after := OpenBytes(checksumType, parser.phase), TakeMachine(Now()).0;
      assert raw == Settled(parser) + open;
      DrainedMachine(Now());
      f := Frame(TYPE_RAW, raw[..rawHead]);
      raw := raw[rawHead..];
      rawHead := 0;
      parser, stale := after.parser, after.stale;
      assert raw == open;
    }

    /** Pop the oldest decoded frame or, when there is none, all settled raw content. */
    method Get() returns (f: Option<Frame>)
      requires Valid()
      modifies `frames, `raw, `rawHead, `parser, `stale, `handed
      ensures Valid() && TakeMachine(old(Now())) == (Now(), f)
      ensures raw == (if old(frames) == [] then old(raw[rawHead..]) else old(raw))
      ensures rawHead == if old(frames) == [] then 0 else old(rawHead)
    {
      hide Running.Valid;
      TakeKeeps(parser, received);
      if frames != [] {
        var next := PopFrame();
        f := Some(next);
      } else if rawHead > 0 {
        var rest := DrainRaw();
        f := Some(rest);
      } else {
        f := None;
      }
    }
  }
}
