// Every run of the decoder, drains under a recorded payload end included: what it hands out is what its log says exactly
// when no frame was completed after such a drain.

module FrameRun {
  import opened Bytes
  import opened Checksum
  import opened Frame
  import opened FrameParser
  import opened FrameRoundTrip
  import opened FrameMachine

  /** The decoder with everything it was given and handed out; once it has failed on an index it is no more. */
  datatype Code = Code(m: Machine, received: seq<byte>, raw: seq<byte>, frames: seq<Frame>, crashed: bool)

  ghost function StepCode(c: Code, e: Event): Code {
    if c.crashed then c
    else
      match e
      case Received(b) =>
        (match FeedMachine(c.m, b)
         case None => c.(crashed := true)
         case Some(m) => c.(m := m, received := c.received + [b]))
      case TimedOut => c.(m := TimeOutMachine(c.m))
      case Taken =>
        var (m, got) := TakeMachine(c.m);
        if got.None? then c
        else if c.m.parser.framesTaken < |c.m.queued| then c.(m := m, frames := c.frames + [got.value])
        else c.(m := m, raw := c.raw + got.value.data)
  }

  ghost function RunCode(ct: ChecksumType, events: seq<Event>): Code {
    Fold(StepCode, Code(Start(ct), [], [], [], false), events)
  }

  lemma {:induction false} RunSnoc(ct: ChecksumType, events: seq<Event>, n: nat)
    requires n < |events|
    ensures Run(ct, events[..n + 1]) == StepWorld(Run(ct, events[..n]), events[n])
    ensures RunCode(ct, events[..n + 1]) == StepCode(RunCode(ct, events[..n]), events[n])
  {
    assert events[..n + 1] == events[..n] + [events[n]];
    FoldConcat(StepWorld, World(Fresh(ct), [], [], []), events[..n], [events[n]]);
    FoldOne(StepWorld, Run(ct, events[..n]), events[n]);
    FoldConcat(StepCode, Code(Start(ct), [], [], [], false), events[..n], [events[n]]);
    FoldOne(StepCode, RunCode(ct, events[..n]), events[n]);
  }

  /** The parser after the first `n` events. */
  ghost function At(ct: ChecksumType, events: seq<Event>, n: nat): Parser
    requires n <= |events|
  {
    Run(ct, events[..n]).parser
  }

  // ---------------------------------------------------------------- what a caller can see of the hazard

  /** Event `i` drains settled bytes in front of an attempt whose payload end is recorded. */
  ghost predicate DrainsAt(ct: ChecksumType, events: seq<Event>, i: nat)
    requires i < |events|
  {
    events[i].Taken? && var p := At(ct, events, i); Queued(p) == [] && Settled(p) != [] && Recorded(p.phase)
  }

  /** Event `j` is a byte that completes a frame. */
  ghost predicate CompletesAt(ct: ChecksumType, events: seq<Event>, j: nat)
    requires j < |events|
  {
    events[j].Received? && Completes(At(ct, events, j), events[j].b)
  }

  /** The attempt that was open behind event `i` is still open before event `n`. */
  ghost predicate StillOpen(ct: ChecksumType, events: seq<Event>, i: nat, n: nat)
    requires n <= |events|
  {
    forall k :: i < k <= n ==> Recorded(At(ct, events, k).phase)
  }

  /** Some drain among the first `n` events was in front of the attempt that is open behind them. */
  ghost predicate Drained(ct: ChecksumType, events: seq<Event>, n: nat)
    requires n <= |events|
  {
    exists i :: 0 <= i < n && DrainsAt(ct, events, i) && StillOpen(ct, events, i, n)
  }

  /** Event `j` completes a frame in front of which settled bytes were drained after its payload end was recorded. */
  ghost predicate SpoiltAt(ct: ChecksumType, events: seq<Event>, j: nat)
    requires j < |events|
  {
    CompletesAt(ct, events, j) && Drained(ct, events, j)
  }

  /** No frame was completed after a drain in front of it. */
  ghost predicate NoneSpoilt(ct: ChecksumType, events: seq<Event>, n: nat)
    requires n <= |events|
  {
    forall j :: 0 <= j < n ==> !SpoiltAt(ct, events, j)
  }

  /** No read drains settled bytes while the padding EOF or the checksum is awaited. */
  ghost predicate SafeReads(ct: ChecksumType, events: seq<Event>) {
    forall i :: 0 <= i < |events| ==> !DrainsAt(ct, events, i)
  }

  /** What every step keeps is kept from any moment to any later one. */
  lemma {:induction false} FromThenOn(holds: nat -> bool, n: nat, m: nat)
    requires n <= m && holds(n) && forall k :: n <= k < m && holds(k) ==> holds(k + 1)
    ensures holds(m)
    decreases m - n
  {
    if n < m { FromThenOn(holds, n + 1, m); }
  }

  // ---------------------------------------------------------------- bytes without a drain in front

  ghost function FeedMachineAll(m: Machine, bs: seq<byte>): Option<Machine>
    decreases |bs|
  {
    if bs == [] then Some(m)
    else match FeedMachine(m, bs[0]) case None => None case Some(n) => FeedMachineAll(n, bs[1..])
  }

  lemma {:induction false} FeedsAppend(p: Parser, bs: seq<byte>)
    ensures p.frames <= FeedAll(p, bs).frames
    decreases |bs|
  {
    if bs != [] {
      FeedOnlyAppends(p, bs[0]);
      FeedsAppend(Feed(p, bs[0]), bs[1..]);
    }
  }

  /** As long as nothing has been drained in front, bytes queue what they add to the log. */
  lemma {:induction false} CleanBytes(m: Machine, bs: seq<byte>, received: seq<byte>)
    requires m.stale == 0 && Accounts(m.parser, received)
    ensures var q := FeedAll(m.parser, bs);
      m.parser.frames <= q.frames
      && FeedMachineAll(m, bs) == Some(Machine(q, 0, m.queued + q.frames[|m.parser.frames|..]))
    decreases |bs|
  {
    FeedsAppend(m.parser, bs);
    if bs == [] {
      assert m.parser.frames[|m.parser.frames|..] == [] && m.queued + [] == m.queued;
    } else {
      var b := bs[0];
      CleanByte(m, b);
      var n := FeedMachine(m, b).value;
      FeedKeeps(m.parser, b, received);
      FeedsAppend(n.parser, bs[1..]);
      CleanBytes(n, bs[1..], received + [b]);
      AddedTwice(m.queued, m.parser.frames, n.parser.frames, FeedAll(m.parser, bs).frames);
    }
  }

  lemma AddedTwice(queued: seq<Frame>, a: seq<Frame>, b: seq<Frame>, c: seq<Frame>)
    requires a <= b <= c
    ensures queued + b[|a|..] + c[|b|..] == queued + c[|a|..]
  {
  }

  lemma {:induction false} CleanByte(m: Machine, b: byte)
    requires m.stale == 0 && PhaseOk(m.parser.ct, m.parser.phase)
    ensures var q := Feed(m.parser, b);
      m.parser.frames <= q.frames && FeedMachine(m, b) == Some(Machine(q, 0, m.queued + q.frames[|m.parser.frames|..]))
  {
    var p := m.parser;
    FeedFrames(p, b);
    if Completes(p, b) {
      ReadBackExactly(p.ct, p.phase, b, 0);
      assert Feed(p, b).frames[|p.frames|..] == [Frame(p.phase.ty, p.phase.data)];
    } else {
      assert Feed(p, b).frames[|p.frames|..] == [] && m.queued + [] == m.queued;
    }
  }

  /** A start byte outside an escape or a checksum puts the recorded end back in its place. */
  lemma {:induction false} SofClears(m: Machine)
    requires CanStart(m.parser.phase) && Occupancy(m.parser) < RAW_BUF_CAP && PhaseOk(m.parser.ct, m.parser.phase)
    ensures FeedMachine(m, SOF) == Some(Machine(Feed(m.parser, SOF), 0, m.queued))
    ensures Feed(m.parser, SOF).frames == m.parser.frames
  {
    FeedFrames(m.parser, SOF);
  }

  /**
   * Resynchronisation of the code: from any state outside an escape or a checksum, whatever was drained in front of the
   * attempt then open, an encoded frame is queued exactly, and nothing else.
   */
  lemma {:induction false} EncodedFrameIsQueued(m: Machine, ty: byte, data: seq<byte>, received: seq<byte>)
    requires Accounts(m.parser, received) && CanStart(m.parser.phase) && ty != SOF && ty != EOF
    requires Encodable(m.parser.ct, |data|)
    requires Occupancy(m.parser) + |FrameWire(m.parser.ct, ty, data)| <= RAW_BUF_CAP
    ensures var p := m.parser;
      FeedMachineAll(m, EncodedFrame(p.ct, ty, data)) ==
        Some(Machine(Deliver(Resync(p), FrameWire(p.ct, ty, data), Frame(ty, data)), 0, m.queued + [Frame(ty, data)]))
  {
    var p, f := m.parser, Frame(ty, data);
    var wire := EncodedFrame(p.ct, ty, data);
    assert wire[0] == SOF;
    SofClears(m);
    FeedKeeps(p, SOF, received);
    var n := FeedMachine(m, SOF).value;
    CleanBytes(n, wire[1..], received + [SOF]);
    EncodedFrameIsDecoded(p, ty, data);
    var q := FeedAll(p, wire);
    assert FeedAll(n.parser, wire[1..]) == q;
    OneDelivered(Resync(p), FrameWire(p.ct, ty, data), f);
    assert q.frames[|p.frames|..] == [f];
  }

  lemma OneDelivered(p: Parser, wire: seq<byte>, f: Frame)
    ensures Deliver(p, wire, f).frames == p.frames + [f]
  {
  }

  // ---------------------------------------------------------------- the decoder follows the reference run

  /** Everything but the frames' contents and the recorded end is the reference run's. */
  ghost predicate Tracks(c: Code, w: World) {
    && c.m.parser == w.parser && c.received == w.received && c.raw == w.raw && InStep(c.m)
    && c.m.parser.framesTaken <= |c.m.queued| && c.frames == c.m.queued[..c.m.parser.framesTaken]
  }

  lemma {:induction false} ReceiveTracks(c: Code, w: World, b: byte)
    requires Tracks(c, w) && WorldOk(w) && !c.crashed && !StepCode(c, Received(b)).crashed
    ensures Tracks(StepCode(c, Received(b)), StepWorld(w, Received(b)))
  {
    FeedFrames(w.parser, b);
    FeedOnlyAppends(w.parser, b);
    if Recorded(Feed(w.parser, b).phase) { StaysRecorded(w.parser, b); }
  }

  lemma {:induction false} TimeOutTracks(c: Code, w: World)
    requires Tracks(c, w) && !c.crashed
    ensures Tracks(StepCode(c, TimedOut), StepWorld(w, TimedOut))
  {
    TimeOutFrames(w.parser);
    TimeOutKeepsCursors(w.parser);
  }

  lemma {:induction false} TimeOutKeepsCursors(p: Parser)
    ensures TimeOut(p).framesTaken == p.framesTaken && TimeOut(p).rawTaken == p.rawTaken
  {
  }

  lemma {:induction false} TakeTracks(c: Code, w: World)
    requires Tracks(c, w) && WorldOk(w) && !c.crashed
    ensures Tracks(StepCode(c, Taken), StepWorld(w, Taken))
  {
    var k := w.parser.framesTaken;
    if k < |c.m.queued| {
      assert c.m.queued[..k] + [c.m.queued[k]] == c.m.queued[..k + 1];
    }
  }

  lemma {:induction false} StepTracks(c: Code, w: World, e: Event)
    requires Tracks(c, w) && WorldOk(w) && !c.crashed && !StepCode(c, e).crashed
    ensures Tracks(StepCode(c, e), StepWorld(w, e))
  {
    match e
    case Received(b) => ReceiveTracks(c, w, b);
    case TimedOut => TimeOutTracks(c, w);
    case Taken => TakeTracks(c, w);
  }

  lemma {:induction false} RunTracks(ct: ChecksumType, events: seq<Event>, n: nat)
    requires n <= |events| && !RunCode(ct, events[..n]).crashed
    ensures Tracks(RunCode(ct, events[..n]), Run(ct, events[..n]))
  {
    if n > 0 {
      RunSnoc(ct, events, n - 1);
      RunTracks(ct, events, n - 1);
      RunKeeps(ct, events[..n - 1]);
      StepTracks(RunCode(ct, events[..n - 1]), Run(ct, events[..n - 1]), events[n - 1]);
    }
  }

  // ---------------------------------------------------------------- when the recorded end is out of place

  lemma {:induction false} StaleStep(c: Code, w: World, e: Event)
    requires Tracks(c, w) && WorldOk(w) && !c.crashed && !StepCode(c, e).crashed
    ensures var q := StepWorld(w, e).parser;
      var drains := e.Taken? && Queued(w.parser) == [] && Settled(w.parser) != [] && Recorded(w.parser.phase);
      StepCode(c, e).m.stale > 0 <==> Recorded(q.phase) && (drains || c.m.stale > 0)
  {
    match e
    case Received(b) =>
      FeedFrames(w.parser, b);
      if Recorded(Feed(w.parser, b).phase) { StaysRecorded(w.parser, b); }
    case TimedOut => TimeOutFrames(w.parser);
    case Taken =>
  }

  /** The recorded end is too large exactly when settled bytes were drained in front of the attempt still open. */
  lemma {:induction false} StaleExactly(ct: ChecksumType, events: seq<Event>, n: nat)
    requires n <= |events| && !RunCode(ct, events[..n]).crashed
    ensures RunCode(ct, events[..n]).m.stale > 0 <==> Drained(ct, events, n)
  {
    if n > 0 {
      RunSnoc(ct, events, n - 1);
      StaleExactly(ct, events, n - 1);
      RunTracks(ct, events, n - 1);
      RunKeeps(ct, events[..n - 1]);
      StaleStep(RunCode(ct, events[..n - 1]), Run(ct, events[..n - 1]), events[n - 1]);
      DrainedStep(ct, events, n - 1);
    }
  }

  lemma {:induction false} DrainedStep(ct: ChecksumType, events: seq<Event>, n: nat)
    requires n < |events|
    ensures Drained(ct, events, n + 1) <==>
      Recorded(At(ct, events, n + 1).phase) && (DrainsAt(ct, events, n) || Drained(ct, events, n))
  {
    if Drained(ct, events, n + 1) {
      var i :| 0 <= i < n + 1 && DrainsAt(ct, events, i) && StillOpen(ct, events, i, n + 1);
      assert StillOpen(ct, events, i, n);
    }
    if Recorded(At(ct, events, n + 1).phase) {
      if DrainsAt(ct, events, n) {
        assert StillOpen(ct, events, n, n + 1);
      } else if Drained(ct, events, n) {
        var i :| 0 <= i < n && DrainsAt(ct, events, i) && StillOpen(ct, events, i, n);
        assert StillOpen(ct, events, i, n + 1);
      }
    }
  }

  // ---------------------------------------------------------------- the queue against the log

  /** The decoder runs on, and its queue is the log's frames so far. */
  ghost predicate Faithful(ct: ChecksumType, events: seq<Event>, n: nat)
    requires n <= |events|
  {
    !RunCode(ct, events[..n]).crashed && RunCode(ct, events[..n]).m.queued == At(ct, events, n).frames
  }

  lemma {:induction false} QueueStep(c: Code, w: World, e: Event)
    requires Tracks(c, w) && WorldOk(w) && !c.crashed
    ensures var spoilt := e.Received? && Completes(w.parser, e.b) && c.m.stale > 0;
      var d := StepCode(c, e);
      (!d.crashed && d.m.queued == StepWorld(w, e).parser.frames) <==> c.m.queued == w.parser.frames && !spoilt
  {
    match e
    case Received(b) =>
      FeedFrames(w.parser, b);
      var p := w.parser;
      if Completes(p, b) {
        ReadBackExactly(p.ct, p.phase, b, c.m.stale);
        var f := Frame(p.phase.ty, p.phase.data);
        var r := ReadBack(p.ct, p.phase, b, c.m.stale);
        if r.Some? { SameSnoc(c.m.queued, r.value, p.frames, f); }
      }
    case TimedOut => TimeOutFrames(w.parser);
    case Taken =>
  }

  lemma {:induction false} SameSnoc(a: seq<Frame>, x: Frame, b: seq<Frame>, y: Frame)
    requires |a| == |b|
    ensures a + [x] == b + [y] <==> a == b && x == y
  {
    if a + [x] == b + [y] {
      assert a == (a + [x])[..|a|] && b == (b + [y])[..|b|];
      assert x == (a + [x])[|a|] && y == (b + [y])[|b|];
    }
  }

  lemma {:induction false} SpoiltByStale(ct: ChecksumType, events: seq<Event>, n: nat)
    requires n < |events| && !RunCode(ct, events[..n]).crashed
    ensures SpoiltAt(ct, events, n) <==>
      events[n].Received? && Completes(At(ct, events, n), events[n].b) && RunCode(ct, events[..n]).m.stale > 0
  {
    StaleExactly(ct, events, n);
  }

  lemma {:induction false} FaithfulStep(ct: ChecksumType, events: seq<Event>, n: nat)
    requires n < |events|
    ensures Faithful(ct, events, n + 1) <==> Faithful(ct, events, n) && !SpoiltAt(ct, events, n)
  {
    RunSnoc(ct, events, n);
    var c, w := RunCode(ct, events[..n]), Run(ct, events[..n]);
    if !c.crashed {
      RunTracks(ct, events, n);
      RunKeeps(ct, events[..n]);
      SpoiltByStale(ct, events, n);
      QueueStep(c, w, events[n]);
    }
  }

  lemma {:induction false} NoneSpoiltStep(ct: ChecksumType, events: seq<Event>, n: nat)
    requires n < |events|
    ensures NoneSpoilt(ct, events, n + 1) <==> NoneSpoilt(ct, events, n) && !SpoiltAt(ct, events, n)
  {
  }

  lemma {:induction false} FaithfulAtStart(ct: ChecksumType, events: seq<Event>)
    ensures Faithful(ct, events, 0) && NoneSpoilt(ct, events, 0)
  {
    assert events[..0] == [];
  }

  lemma {:induction false} FaithfulNext(ct: ChecksumType, events: seq<Event>, n: nat)
    requires n < |events| && (Faithful(ct, events, n) <==> NoneSpoilt(ct, events, n))
    ensures Faithful(ct, events, n + 1) <==> NoneSpoilt(ct, events, n + 1)
  {
    FaithfulStep(ct, events, n);
    NoneSpoiltStep(ct, events, n);
  }

  lemma {:induction false} FaithfulExactly(ct: ChecksumType, events: seq<Event>, n: nat)
    requires n <= |events|
    ensures Faithful(ct, events, n) <==> NoneSpoilt(ct, events, n)
    decreases n
  {
    hide Faithful, NoneSpoilt;
    if n == 0 {
      FaithfulAtStart(ct, events);
    } else {
      FaithfulExactly(ct, events, n - 1);
      FaithfulNext(ct, events, n - 1);
    }
  }

  // ---------------------------------------------------------------- frame by frame

  /** Among the frames so far, the `k`-th that the code has queued is the log's. */
  ghost predicate SameAt(c: Code, p: Parser, k: nat) {
    k < |c.m.queued| && k < |p.frames| && c.m.queued[k] == p.frames[k]
  }

  lemma {:induction false} CompletingStep(c: Code, w: World, b: byte)
    requires Tracks(c, w) && WorldOk(w) && !c.crashed && Completes(w.parser, b)
    ensures var d := StepCode(c, Received(b));
      && (c.m.stale == 0 ==> !d.crashed)
      && (!d.crashed ==> (SameAt(d, Feed(w.parser, b), |w.parser.frames|) <==> c.m.stale == 0))
  {
    var p := w.parser;
    FeedFrames(p, b);
    ReadBackExactly(p.ct, p.phase, b, c.m.stale);
  }

  lemma {:induction false} LaterSteps(c: Code, w: World, e: Event, k: nat)
    requires Tracks(c, w) && WorldOk(w) && !StepCode(c, e).crashed && k < |w.parser.frames|
    ensures !c.crashed
    ensures SameAt(StepCode(c, e), StepWorld(w, e).parser, k) <==> SameAt(c, w.parser, k)
    ensures k < |StepWorld(w, e).parser.frames|
  {
    match e
    case Received(b) => FeedFrames(w.parser, b);
    case TimedOut => TimeOutFrames(w.parser);
    case Taken =>
  }

  lemma {:induction false} CompletedNow(ct: ChecksumType, events: seq<Event>, j: nat)
    requires j < |events| && CompletesAt(ct, events, j) && !RunCode(ct, events[..j]).crashed
    ensures var k := |At(ct, events, j).frames|;
      && (!SpoiltAt(ct, events, j) ==> !RunCode(ct, events[..j + 1]).crashed)
      && k < |At(ct, events, j + 1).frames|
      && (!RunCode(ct, events[..j + 1]).crashed ==>
           (SameAt(RunCode(ct, events[..j + 1]), At(ct, events, j + 1), k) <==> !SpoiltAt(ct, events, j)))
  {
    var c, w := RunCode(ct, events[..j]), Run(ct, events[..j]);
    RunSnoc(ct, events, j);
    RunTracks(ct, events, j);
    RunKeeps(ct, events[..j]);
    SpoiltByStale(ct, events, j);
    CompletingStep(c, w, events[j].b);
    FeedFrames(w.parser, events[j].b);
  }

  lemma {:induction false} CompletedStays(ct: ChecksumType, events: seq<Event>, k: nat, n: nat)
    requires n < |events| && k < |At(ct, events, n).frames|
    ensures k < |At(ct, events, n + 1).frames|
    ensures !RunCode(ct, events[..n + 1]).crashed ==>
      !RunCode(ct, events[..n]).crashed
      && (SameAt(RunCode(ct, events[..n + 1]), At(ct, events, n + 1), k) <==>
           SameAt(RunCode(ct, events[..n]), At(ct, events, n), k))
  {
    RunSnoc(ct, events, n);
    var c, w := RunCode(ct, events[..n]), Run(ct, events[..n]);
    FramesStay(w, events[n], k);
    if !StepCode(c, events[n]).crashed {
      assert !c.crashed;
      RunTracks(ct, events, n);
      RunKeeps(ct, events[..n]);
      LaterSteps(c, w, events[n], k);
    }
  }

  /** Behind `n` events, the frame completed by event `j` is in the log, and right in the queue exactly if not spoilt. */
  ghost predicate RightUnlessSpoilt(ct: ChecksumType, events: seq<Event>, j: nat, n: nat)
    requires j < n <= |events|
  {
    var k := |At(ct, events, j).frames|;
    && k < |At(ct, events, n).frames|
    && (!RunCode(ct, events[..n]).crashed ==>
         (SameAt(RunCode(ct, events[..n]), At(ct, events, n), k) <==> !SpoiltAt(ct, events, j)))
  }

  lemma {:induction false} StaysRight(ct: ChecksumType, events: seq<Event>, j: nat, n: nat)
    requires j < n < |events| && RightUnlessSpoilt(ct, events, j, n)
    ensures RightUnlessSpoilt(ct, events, j, n + 1)
  {
    CompletedStays(ct, events, |At(ct, events, j).frames|, n);
  }

  lemma {:induction false} RightAtOnce(ct: ChecksumType, events: seq<Event>, j: nat)
    requires j < |events| && CompletesAt(ct, events, j) && !RunCode(ct, events[..j]).crashed
    ensures RightUnlessSpoilt(ct, events, j, j + 1)
  {
    CompletedNow(ct, events, j);
  }

  /**
   * Frame by frame, in every run: unless settled bytes were drained in front of it, completing a frame never makes the
   * decoder fail; and at any later time the frame that was queued is the one on the wire exactly in that case.
   */
  lemma {:induction false} FrameExactly(ct: ChecksumType, events: seq<Event>, j: nat, n: nat)
    requires j < n <= |events| && CompletesAt(ct, events, j) && !RunCode(ct, events[..j]).crashed
    ensures !SpoiltAt(ct, events, j) ==> !RunCode(ct, events[..j + 1]).crashed
    ensures RightUnlessSpoilt(ct, events, j, n)
    decreases n
  {
    hide RightUnlessSpoilt, SpoiltAt, CompletesAt, RunCode;
    CompletedNow(ct, events, j);
    if n == j + 1 {
      RightAtOnce(ct, events, j);
    } else {
      FrameExactly(ct, events, j, n - 1);
      StaysRight(ct, events, j, n - 1);
    }
  }

  lemma {:induction false} FramesStay(w: World, e: Event, k: nat)
    requires k < |w.parser.frames|
    ensures k < |StepWorld(w, e).parser.frames|
  {
    if e.Received? { FeedOnlyAppends(w.parser, e.b); } else { TimeOutFrames(w.parser); }
  }

  // ---------------------------------------------------------------- the theorems about the code

  /**
   * The decoder has not failed, and what it received is, in order, the pieces of its log and the open attempt; raw
   * content and frames of the log are what it handed out and what it still holds.
   */
  ghost predicate CodeConserved(c: Code, received: seq<byte>) {
    var p := c.m.parser;
    && !c.crashed
    && received == LogBytes(p.log) + OpenBytes(p.ct, p.phase) && LogOk(p.ct, p.log)
    && LogKept(p.log) == c.raw + Settled(p)
    && LogDrops(p.log) == p.drops
    && c.m.queued == LogFrames(p.log)
    && p.framesTaken <= |c.m.queued| && c.frames == c.m.queued[..p.framesTaken]
    && 0 <= Occupancy(p) <= RAW_BUF_CAP
  }

  /**
   * Byte conservation and authenticity of the code over every run: they hold exactly when no frame was completed after
   * settled bytes had been drained in front of it.
   */
  lemma {:induction false} CodeConservedExactly(ct: ChecksumType, events: seq<Event>)
    ensures CodeConserved(RunCode(ct, events), BytesReceived(events)) <==> NoneSpoilt(ct, events, |events|)
  {
    var n := |events|;
    assert events[..n] == events;
    FaithfulExactly(ct, events, n);
    ByteConservation(ct, events);
    RunKeeps(ct, events);
    if !RunCode(ct, events).crashed { RunTracks(ct, events, n); }
  }

  /** Whatever was drained, as long as the decoder has not failed: no byte is lost, and one frame is queued for each attempt completed. */
  lemma {:induction false} RawIsConserved(ct: ChecksumType, events: seq<Event>)
    requires !RunCode(ct, events).crashed
    ensures var c := RunCode(ct, events);
      var p := c.m.parser;
      && BytesReceived(events) == LogBytes(p.log) + OpenBytes(p.ct, p.phase) && LogOk(p.ct, p.log)
      && LogKept(p.log) == c.raw + Settled(p) && LogDrops(p.log) == p.drops
      && |c.m.queued| == |LogFrames(p.log)|
  {
    assert events[..|events|] == events;
    ByteConservation(ct, events);
    RunKeeps(ct, events);
    RunTracks(ct, events, |events|);
  }

  /** Reads that drain nothing under a recorded end are safe: every frame handed out or queued was really on the wire. */
  lemma {:induction false} SafeReadsAreAuthentic(ct: ChecksumType, events: seq<Event>, f: Frame)
    requires SafeReads(ct, events) && f in RunCode(ct, events).m.queued
    ensures CodeConserved(RunCode(ct, events), BytesReceived(events))
    ensures WasOnTheWire(ct, BytesReceived(events), f)
  {
    assert events[..|events|] == events;
    forall j | 0 <= j < |events| ensures !SpoiltAt(ct, events, j) {
    }
    CodeConservedExactly(ct, events);
    FaithfulExactly(ct, events, |events|);
    DecodedFramesAreAuthentic(ct, events, f);
  }
}
