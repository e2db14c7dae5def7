// Reference parser for a MUP1 byte stream.
//
// It never forgets and has no buffer indices: the whole past is a log of pieces, summarised in
// `bytes`, `kept`, `frames` and `drops`; what the decoder of mup1/src/frame.rs holds in `raw`,
// `raw_head`, `frames` and `drop_count` is read off these summaries and two cursors.

module FrameParser {
  import opened Bytes
  import opened Checksum
  import opened Frame

  /** Where the open attempt stands; `data` is the unescaped payload seen so far. */
  datatype Phase =
    | Idle
    | AfterFrame
    | AfterFrameCr
    | AfterSof
    | InData(ty: byte, body: seq<byte>, data: seq<byte>)
    | InEscape(ty: byte, body: seq<byte>, data: seq<byte>)
    | AfterEof(ty: byte, body: seq<byte>, data: seq<byte>)
    | InSum(ty: byte, body: seq<byte>, data: seq<byte>, sum: seq<byte>)

  /** What became of a stretch of received bytes. */
  datatype Piece =
    | Framed(wire: seq<byte>, frame: Frame)
    | Swallowed(b: byte)
    | Dropped(b: byte)
    | Kept(bytes: seq<byte>)

  datatype Parser = Parser(
    ct: ChecksumType,
    log: seq<Piece>,
    bytes: seq<byte>,
    kept: seq<byte>,
    frames: seq<Frame>,
    drops: nat,
    phase: Phase,
    framesTaken: nat,
    rawTaken: nat)

  function Fresh(ct: ChecksumType): Parser {
    Parser(ct, [], [], [], [], 0, Idle, 0, 0)
  }

  // ---------------------------------------------------------------- reading the log

  function PieceBytes(p: Piece): seq<byte> {
    match p
    case Framed(wire, _) => wire
    case Swallowed(b) => [b]
    case Dropped(b) => [b]
    case Kept(bytes) => bytes
  }

  function LogBytes(log: seq<Piece>): seq<byte> {
    if log == [] then [] else LogBytes(log[..|log| - 1]) + PieceBytes(log[|log| - 1])
  }

  function LogKept(log: seq<Piece>): seq<byte> {
    if log == [] then []
    else
      LogKept(log[..|log| - 1]) + (match log[|log| - 1] case Kept(bytes) => bytes case _ => [])
  }

  function LogFrames(log: seq<Piece>): seq<Frame> {
    if log == [] then []
    else
      LogFrames(log[..|log| - 1]) + (match log[|log| - 1] case Framed(_, f) => [f] case _ => [])
  }

  function LogDrops(log: seq<Piece>): nat {
    if log == [] then 0
    else LogDrops(log[..|log| - 1]) + (if log[|log| - 1].Dropped? then 1 else 0)
  }

  /** Enter a piece into the log and its summaries. */
  function Append(p: Parser, piece: Piece): Parser {
    p.(log := p.log + [piece],
       bytes := p.bytes + PieceBytes(piece),
       kept := if piece.Kept? then p.kept + piece.bytes else p.kept,
       frames := if piece.Framed? then p.frames + [piece.frame] else p.frames,
       drops := if piece.Dropped? then p.drops + 1 else p.drops)
  }

  predicate Summarised(p: Parser) {
    && p.bytes == LogBytes(p.log)
    && p.kept == LogKept(p.log)
    && p.frames == LogFrames(p.log)
    && p.drops == LogDrops(p.log)
  }

  lemma AppendSummarised(p: Parser, piece: Piece)
    requires Summarised(p)
    ensures Summarised(Append(p, piece))
  {
    assert Append(p, piece).log[..|p.log|] == p.log;
    assert piece.Kept? || LogKept(p.log) + [] == LogKept(p.log);
    assert piece.Framed? || LogFrames(p.log) + [] == LogFrames(p.log);
  }

  /** The verbatim bytes of the open attempt. */
  function OpenBytes(ct: ChecksumType, ph: Phase): seq<byte> {
    match ph
    case Idle => []
    case AfterFrame => []
    case AfterFrameCr => []
    case AfterSof => [SOF]
    case InData(ty, body, _) => [SOF, ty] + body
    case InEscape(ty, body, _) => [SOF, ty] + body + [ESC]
    case AfterEof(ty, body, _) => [SOF, ty] + body + [EOF]
    case InSum(ty, body, data, sum) => [SOF, ty] + body + Eofs(ct, |data|) + sum
  }

  /** Raw content and decoded frames not yet handed out. */
  function Settled(p: Parser): seq<byte> {
    if p.rawTaken <= |p.kept| then p.kept[p.rawTaken..] else []
  }

  function Queued(p: Parser): seq<Frame> {
    if p.framesTaken <= |p.frames| then p.frames[p.framesTaken..] else []
  }

  predicate CursorsFit(p: Parser) {
    p.rawTaken <= |p.kept| && p.framesTaken <= |p.frames|
  }

  /** Occupancy of the verbatim buffer. */
  function Occupancy(p: Parser): int {
    |p.kept| - p.rawTaken + |OpenBytes(p.ct, p.phase)|
  }

  // ---------------------------------------------------------------- one byte

  /**
   * The effect of one byte: raw bytes to settle, then possibly one more piece for the log, then the
   * new phase.
   */
  datatype Move = Move(settle: seq<byte>, piece: Option<Piece>, next: Phase)

  function GoTo(next: Phase): Move {
    Move([], None, next)
  }

  /** Give up on the open attempt, followed by `last`, as raw content. */
  function GiveUp(ct: ChecksumType, ph: Phase, last: seq<byte>): Move {
    Move(OpenBytes(ct, ph) + last, None, Idle)
  }

  ghost predicate SumAccepted(ct: ChecksumType, ty: byte, data: seq<byte>, sum: seq<byte>)
  {
    Encodable(ct, |data|) && (IsIgnoreSentinel(ct, sum) || sum == WireForm(ct, Logical(ct, ty, data)))
  }

  ghost function SumMove(ct: ChecksumType, ph: Phase, b: byte): Move
    requires ph.InSum?
  {
    var InSum(ty, body, data, sum) := ph;
    if |sum| + 1 < EncodedLen(ct) then GoTo(InSum(ty, body, data, sum + [b]))
    else if SumAccepted(ct, ty, data, sum + [b]) then
      Move([], Some(Framed(OpenBytes(ct, ph) + [b], Frame(ty, data))), AfterFrame)
    else GiveUp(ct, ph, [b])
  }

  function DataMove(ct: ChecksumType, ph: Phase, b: byte): Move
    requires ph.InData?
  {
    var InData(ty, body, data) := ph;
    if b == ESC then GoTo(InEscape(ty, body, data))
    else if b != EOF then GoTo(InData(ty, body + [b], data + [b]))
    else if EofCount(ct, |data|) == 2 then GoTo(AfterEof(ty, body, data))
    else GoTo(InSum(ty, body, data, []))
  }

  /** A received byte for which there is room. */
  ghost function ByteMove(ct: ChecksumType, ph: Phase, b: byte): Move {
    if ph.AfterFrame? && b == CR then Move([], Some(Swallowed(b)), AfterFrameCr)
    else if ph.AfterFrameCr? && b == LF then Move([], Some(Swallowed(b)), Idle)
    else if ph.InSum? then SumMove(ct, ph, b)
    else if ph.InEscape? then GoTo(InData(ph.ty, ph.body + [ESC, b], ph.data + [UnescapeByte(b)]))
    else if b == SOF then Move(OpenBytes(ct, ph), None, AfterSof)
    else if ph.AfterSof? then (if b == EOF then GiveUp(ct, ph, [b]) else GoTo(InData(b, [], [])))
    else if ph.InData? then DataMove(ct, ph, b)
    else if ph.AfterEof? && b == EOF then GoTo(InSum(ph.ty, ph.body, ph.data, []))
    else GiveUp(ct, ph, [b])
  }

  /** A received byte that no longer fits: it is dropped and the open attempt is settled. */
  function OverflowMove(ct: ChecksumType, ph: Phase, b: byte): Move {
    Move(OpenBytes(ct, ph), Some(Dropped(b)), Idle)
  }

  function Settle(p: Parser, bytes: seq<byte>): Parser {
    if bytes == [] then p else Append(p, Kept(bytes))
  }

  function Apply(p: Parser, m: Move): Parser {
    var q := Settle(p, m.settle);
    (if m.piece.None? then q else Append(q, m.piece.value)).(phase := m.next)
  }

  ghost function Feed(p: Parser, b: byte): Parser {
    Apply(p, if Occupancy(p) < RAW_BUF_CAP then ByteMove(p.ct, p.phase, b) else OverflowMove(p.ct, p.phase, b))
  }

  /** A timeout gives up on whatever attempt is open. */
  function TimeOut(p: Parser): Parser {
    if OpenBytes(p.ct, p.phase) == [] then p else Apply(p, GiveUp(p.ct, p.phase, []))
  }

  /** Hand the oldest decoded frame to the caller or, when there is none, all settled raw bytes. */
  function Take(p: Parser): (Parser, Option<Frame>) {
    if Queued(p) != [] then (p.(framesTaken := p.framesTaken + 1), Some(Queued(p)[0]))
    else if Settled(p) != [] then (p.(rawTaken := |p.kept|), Some(Frame(TYPE_RAW, Settled(p))))
    else (p, None)
  }

  // ---------------------------------------------------------------- every move accounts for its byte

  predicate BodyOk(ty: byte, body: seq<byte>, data: seq<byte>) {
    ty != SOF && ty != EOF && Unescape(body) == Some(data)
  }

  /** The invariant of the phases: payload and stuffed body agree. */
  predicate PhaseOk(ct: ChecksumType, ph: Phase) {
    match ph
    case Idle => true
    case AfterFrame => true
    case AfterFrameCr => true
    case AfterSof => true
    case InData(ty, body, data) => BodyOk(ty, body, data)
    case InEscape(ty, body, data) => BodyOk(ty, body, data)
    case AfterEof(ty, body, data) => BodyOk(ty, body, data) && EofCount(ct, |data|) == 2
    case InSum(ty, body, data, sum) => BodyOk(ty, body, data) && |sum| < EncodedLen(ct)
  }

  /** `wire` is SOF, TYPE, a stuffed body, the EOFs of the parity rule and an accepted checksum. */
  ghost predicate FrameSpan(ct: ChecksumType, wire: seq<byte>, f: Frame, body: seq<byte>, sum: seq<byte>) {
    && BodyOk(f.typeByte, body, f.data)
    && wire == [SOF, f.typeByte] + body + Eofs(ct, |f.data|) + sum
    && |sum| == EncodedLen(ct)
    && SumAccepted(ct, f.typeByte, f.data, sum)
  }

  /** A piece may enter the log behind phase `ph`: trailers only follow a frame. */
  ghost predicate PieceFollows(ct: ChecksumType, ph: Phase, piece: Piece) {
    match piece
    case Framed(wire, f) => exists body, sum :: FrameSpan(ct, wire, f, body, sum)
    case Swallowed(b) => (b == CR && ph.AfterFrame?) || (b == LF && ph.AfterFrameCr?)
    case _ => true
  }

  function OptionalBytes(piece: Option<Piece>): seq<byte> {
    if piece.None? then [] else PieceBytes(piece.value)
  }

  /** The move settles, logs and keeps open exactly the old attempt and the new byte. */
  ghost predicate MoveOk(ct: ChecksumType, ph: Phase, b: byte, m: Move) {
    && OpenBytes(ct, ph) + [b] == m.settle + OptionalBytes(m.piece) + OpenBytes(ct, m.next)
    && PhaseOk(ct, m.next)
    && (m.piece.Some? ==> !m.piece.value.Kept? && PieceFollows(ct, ph, m.piece.value))
    && (m.piece.Some? && m.piece.value.Swallowed? ==> m.settle == [])
    && (m.next.AfterFrame? ==> m.piece.Some? && m.piece.value.Framed?)
    && (m.next.AfterFrameCr? ==> m.piece == Some(Swallowed(CR)))
  }

  lemma UnescapeUnit(body: seq<byte>, data: seq<byte>, unit: seq<byte>, b: byte)
    requires Unescape(body) == Some(data)
    requires || (unit == [b] && b != SOF && b != EOF && b != ESC)
             || (|unit| == 2 && unit[0] == ESC && b == UnescapeByte(unit[1]))
    ensures Unescape(body + unit) == Some(data + [b])
  {
    assert [b] + [] == [b];
    if |unit| == 2 {
      assert unit[2..] == [];
    } else {
      assert unit[1..] == [];
    }
    assert Unescape(unit) == Some([b]);
    UnescapeAppend(body, unit);
  }

  lemma NothingAround(s: seq<byte>)
    ensures [] + s + [] == s
  {
  }

  lemma LastSumOk(ct: ChecksumType, ph: Phase, b: byte)
    requires PhaseOk(ct, ph) && ph.InSum? && |ph.sum| + 1 == EncodedLen(ct)
    requires SumAccepted(ct, ph.ty, ph.data, ph.sum + [b])
    ensures MoveOk(ct, ph, b, Move([], Some(Framed(OpenBytes(ct, ph) + [b], Frame(ph.ty, ph.data))), AfterFrame))
  {
    var InSum(ty, body, data, sum) := ph;
    var wire := OpenBytes(ct, ph) + [b];
    assert wire == [SOF, ty] + body + Eofs(ct, |data|) + (sum + [b]) by {
      SeqAssoc([SOF, ty] + body + Eofs(ct, |data|), sum, [b]);
    }
    assert FrameSpan(ct, wire, Frame(ty, data), body, sum + [b]);
    NothingAround(wire);
  }

  lemma SumMoveOk(ct: ChecksumType, ph: Phase, b: byte)
    requires PhaseOk(ct, ph) && ph.InSum?
    ensures MoveOk(ct, ph, b, SumMove(ct, ph, b))
  {
    var InSum(ty, body, data, sum) := ph;
    if |sum| + 1 < EncodedLen(ct) {
      SeqAssoc([SOF, ty] + body + Eofs(ct, |data|), sum, [b]);
    } else if SumAccepted(ct, ty, data, sum + [b]) {
      LastSumOk(ct, ph, b);
    } else {
      GiveUpOk(ct, ph, b);
    }
  }

  lemma DataMoveOk(ct: ChecksumType, ph: Phase, b: byte)
    requires PhaseOk(ct, ph) && ph.InData? && b != SOF
    ensures MoveOk(ct, ph, b, DataMove(ct, ph, b))
  {
    var InData(ty, body, data) := ph;
    if b != ESC && b != EOF {
      UnescapeUnit(body, data, [b], b);
      SeqAssoc([SOF, ty], body, [b]);
    }
  }

  lemma GiveUpOk(ct: ChecksumType, ph: Phase, b: byte)
    ensures MoveOk(ct, ph, b, GiveUp(ct, ph, [b]))
    ensures MoveOk(ct, ph, b, Move(OpenBytes(ct, ph), None, AfterSof)) <== b == SOF
  {
    var open := OpenBytes(ct, ph);
    assert open + [b] + [] + [] == open + [b] && open + [] + [b] == open + [b];
  }

  lemma HeaderMoveOk(ct: ChecksumType, ph: Phase, b: byte)
    requires ph.AfterFrame? || ph.AfterFrameCr? || ph.AfterSof?
    ensures b == CR && ph.AfterFrame? ==> MoveOk(ct, ph, b, Move([], Some(Swallowed(b)), AfterFrameCr))
    ensures b == LF && ph.AfterFrameCr? ==> MoveOk(ct, ph, b, Move([], Some(Swallowed(b)), Idle))
    ensures b != SOF && b != EOF && ph.AfterSof? ==> MoveOk(ct, ph, b, GoTo(InData(b, [], [])))
  {
  }

  lemma EscapeMoveOk(ct: ChecksumType, ph: Phase, b: byte)
    requires PhaseOk(ct, ph) && ph.InEscape?
    ensures MoveOk(ct, ph, b, GoTo(InData(ph.ty, ph.body + [ESC, b], ph.data + [UnescapeByte(b)])))
  {
    UnescapeUnit(ph.body, ph.data, [ESC, b], UnescapeByte(b));
    assert [SOF, ph.ty] + (ph.body + [ESC, b]) == ([SOF, ph.ty] + ph.body + [ESC]) + [b];
  }

  lemma ByteMoveOk(ct: ChecksumType, ph: Phase, b: byte)
    requires PhaseOk(ct, ph)
    ensures MoveOk(ct, ph, b, ByteMove(ct, ph, b))
  {
    GiveUpOk(ct, ph, b);
    if ph.InSum? {
      SumMoveOk(ct, ph, b);
    } else if ph.InEscape? {
      EscapeMoveOk(ct, ph, b);
    } else if ph.InData? && b != SOF {
      DataMoveOk(ct, ph, b);
    } else if ph.AfterFrame? || ph.AfterFrameCr? || ph.AfterSof? {
      HeaderMoveOk(ct, ph, b);
    }
  }

  // ---------------------------------------------------------------- what every step keeps

  ghost predicate PieceOk(ct: ChecksumType, log: seq<Piece>, i: nat)
    requires i < |log|
  {
    match log[i]
    case Framed(wire, f) => exists body, sum :: FrameSpan(ct, wire, f, body, sum)
    case Swallowed(b) =>
      i > 0 && ((b == CR && log[i - 1].Framed?) || (b == LF && log[i - 1] == Swallowed(CR)))
    case _ => true
  }

  ghost predicate LogOk(ct: ChecksumType, log: seq<Piece>) {
    forall i :: 0 <= i < |log| ==> PieceOk(ct, log, i)
  }

  /** Log and summaries agree, and a frame whose trailer may still come is the last entry. */
  ghost predicate LogSound(p: Parser) {
    && Summarised(p)
    && LogOk(p.ct, p.log)
    && (p.phase.AfterFrame? ==> p.log != [] && p.log[|p.log| - 1].Framed?)
    && (p.phase.AfterFrameCr? ==> p.log != [] && p.log[|p.log| - 1] == Swallowed(CR))
  }

  ghost predicate Sound(p: Parser) {
    && LogSound(p)
    && PhaseOk(p.ct, p.phase)
    && CursorsFit(p)
    && Occupancy(p) <= RAW_BUF_CAP
  }

  /** Every byte the log and the open attempt stand for, in order. */
  function Past(p: Parser): seq<byte> {
    p.bytes + OpenBytes(p.ct, p.phase)
  }

  /** `received` is exactly what the log and the open attempt account for. */
  ghost predicate Accounts(p: Parser, received: seq<byte>) {
    Sound(p) && Past(p) == received
  }

  lemma LogOkAppend(ct: ChecksumType, log: seq<Piece>, piece: Piece)
    requires LogOk(ct, log) && PieceOk(ct, log + [piece], |log|)
    ensures LogOk(ct, log + [piece])
  {
    var longer := log + [piece];
    forall i | 0 <= i < |longer| ensures PieceOk(ct, longer, i) {
      if i < |log| {
        assert PieceOk(ct, log, i);
        assert longer[i] == log[i] && (i > 0 ==> longer[i - 1] == log[i - 1]);
      }
    }
  }

  lemma AppendKeepsLog(p: Parser, piece: Piece)
    requires LogSound(p) && PieceFollows(p.ct, p.phase, piece)
    ensures LogSound(Append(p, piece).(phase := Idle))
  {
    AppendSummarised(p, piece);
    LogOkAppend(p.ct, p.log, piece);
  }

  lemma ApplyKeepsLog(p: Parser, b: byte, m: Move)
    requires LogSound(p) && MoveOk(p.ct, p.phase, b, m)
    ensures LogSound(Apply(p, m))
  {
    if m.settle != [] {
      AppendKeepsLog(p, Kept(m.settle));
    }
    if m.piece.Some? {
      if m.settle != [] {
        AppendKeepsLog(Append(p, Kept(m.settle)).(phase := Idle), m.piece.value);
      } else {
        AppendKeepsLog(p, m.piece.value);
      }
    }
  }

  function FramesOf(piece: Option<Piece>): seq<Frame> {
    if piece.Some? && piece.value.Framed? then [piece.value.frame] else []
  }

  lemma ApplyCounts(p: Parser, m: Move)
    requires m.piece.Some? ==> !m.piece.value.Kept?
    ensures Apply(p, m).bytes == p.bytes + (m.settle + OptionalBytes(m.piece))
    ensures Apply(p, m).kept == p.kept + m.settle
    ensures Apply(p, m).frames == p.frames + FramesOf(m.piece)
    ensures Apply(p, m).phase == m.next && Apply(p, m).ct == p.ct
    ensures Apply(p, m).rawTaken == p.rawTaken && Apply(p, m).framesTaken == p.framesTaken
  {
    SeqAssoc(p.bytes, m.settle, OptionalBytes(m.piece));
    assert m.settle == [] ==> p.bytes + m.settle == p.bytes && p.kept + m.settle == p.kept;
    assert p.bytes + m.settle + [] == p.bytes + m.settle && p.frames + [] == p.frames;
  }

  /** What a move adds to the contents waiting to be taken. */
  lemma ApplyQueues(p: Parser, m: Move)
    requires CursorsFit(p) && (m.piece.Some? ==> !m.piece.value.Kept?)
    ensures Settled(Apply(p, m)) == Settled(p) + m.settle
    ensures Queued(Apply(p, m)) == Queued(p) + FramesOf(m.piece)
    ensures Apply(p, m).drops == p.drops + (if m.piece.Some? && m.piece.value.Dropped? then 1 else 0)
    ensures Apply(p, m).ct == p.ct && Apply(p, m).phase == m.next && CursorsFit(Apply(p, m))
  {
    ApplyCounts(p, m);
  }

  lemma ApplyKeeps(p: Parser, b: byte, m: Move, received: seq<byte>)
    requires Accounts(p, received) && MoveOk(p.ct, p.phase, b, m)
    requires |p.kept| - p.rawTaken + |m.settle| + |OpenBytes(p.ct, m.next)| <= RAW_BUF_CAP
    ensures Accounts(Apply(p, m), received + [b])
  {
    ApplyKeepsLog(p, b, m);
    ApplyCounts(p, m);
    SeqAssoc(p.bytes, OpenBytes(p.ct, p.phase), [b]);
    SeqAssoc(p.bytes, m.settle + OptionalBytes(m.piece), OpenBytes(p.ct, m.next));
  }

  /** One byte in: everything received so far is still accounted for, byte for byte. */
  lemma FeedKeeps(p: Parser, b: byte, received: seq<byte>)
    requires Accounts(p, received)
    ensures Accounts(Feed(p, b), received + [b])
  {
    var open := OpenBytes(p.ct, p.phase);
    if Occupancy(p) < RAW_BUF_CAP {
      var m := ByteMove(p.ct, p.phase, b);
      ByteMoveOk(p.ct, p.phase, b);
      assert |open + [b]| == |m.settle + OptionalBytes(m.piece) + OpenBytes(p.ct, m.next)|;
      ApplyKeeps(p, b, m, received);
    } else {
      assert open + [b] + [] == open + [b];
      ApplyKeeps(p, b, OverflowMove(p.ct, p.phase, b), received);
    }
  }

  lemma TimeOutKeeps(p: Parser, received: seq<byte>)
    requires Accounts(p, received)
    ensures Accounts(TimeOut(p), received)
  {
    var open := OpenBytes(p.ct, p.phase);
    if open != [] {
      assert open + [] == open && p.bytes + open + [] == p.bytes + open;
      AppendKeepsLog(p, Kept(open));
    }
  }

  lemma SameLogSound(p: Parser, q: Parser)
    requires LogSound(p) && q == p.(framesTaken := q.framesTaken, rawTaken := q.rawTaken)
    ensures LogSound(q)
  {
  }

  lemma AccountsFit(p: Parser, received: seq<byte>)
    requires Accounts(p, received)
    ensures Sound(p) && CursorsFit(p)
  {
  }

  lemma TakeKeeps(p: Parser, received: seq<byte>)
    requires Accounts(p, received)
    ensures Accounts(Take(p).0, received)
  {
    SameLogSound(p, Take(p).0);
  }
}
