// Encoded frames that arrive in pieces: however the bytes are cut into reads, and whenever frames are taken out in
// between, exactly the frames sent come out, and nothing is ever drained in front of an open frame.

module FrameChunking {
  import opened Bytes
  import opened Checksum
  import opened Frame
  import opened FrameParser
  import opened FrameRoundTrip
  import opened FrameRun

  /** `w` is where feeding alone led to `q`, but for the frames already taken; no raw content has come up. */
  ghost predicate Shadows(w: World, q: Parser) {
    && q.kept == [] && q.rawTaken == 0 && q.framesTaken == 0
    && w.parser.framesTaken <= |q.frames| && w.parser == q.(framesTaken := w.parser.framesTaken)
    && w.raw == [] && w.frames == q.frames[..w.parser.framesTaken]
  }

  lemma {:induction false} ApplyIgnoresTaken(q: Parser, n: nat, m: Move)
    ensures Apply(q.(framesTaken := n), m) == Apply(q, m).(framesTaken := n)
  {
  }

  /** What a byte does depends neither on how many frames have been taken nor changes it. */
  lemma {:induction false} FeedIgnoresTaken(q: Parser, n: nat, b: byte)
    ensures Feed(q.(framesTaken := n), b) == Feed(q, b).(framesTaken := n)
  {
    var p := q.(framesTaken := n);
    assert Occupancy(p) == Occupancy(q);
    ApplyIgnoresTaken(q, n,
      if Occupancy(q) < RAW_BUF_CAP then ByteMove(q.ct, q.phase, b) else OverflowMove(q.ct, q.phase, b));
  }

  lemma {:induction false} FedOnlyAppends(q: Parser, bs: seq<byte>)
    ensures q.kept <= FeedAll(q, bs).kept && q.frames <= FeedAll(q, bs).frames
    ensures FeedAll(q, bs).rawTaken == q.rawTaken && FeedAll(q, bs).framesTaken == q.framesTaken
    decreases |bs|
  {
    if bs != [] {
      FeedOnlyAppends(q, bs[0]);
      FedOnlyAppends(Feed(q, bs[0]), bs[1..]);
    }
  }

  lemma {:induction false} ReceiveShadows(w: World, q: Parser, b: byte)
    requires Shadows(w, q) && Feed(q, b).kept == []
    ensures Shadows(StepWorld(w, Received(b)), Feed(q, b))
  {
    FeedIgnoresTaken(q, w.parser.framesTaken, b);
    FeedOnlyAppends(q, b);
  }

  lemma {:induction false} TakeShadows(w: World, q: Parser)
    requires Shadows(w, q)
    ensures Shadows(StepWorld(w, Taken), q)
  {
    var k := w.parser.framesTaken;
    if k < |q.frames| { assert q.frames[..k] + [q.frames[k]] == q.frames[..k + 1]; }
  }

  // ---------------------------------------------------------------- ticks that give an attempt up

  /** No tick gives an open attempt up. */
  ghost predicate QuietTicks(ct: ChecksumType, events: seq<Event>, n: nat)
    requires n <= |events|
  {
    forall i :: 0 <= i < n && events[i].TimedOut? ==> OpenBytes(At(ct, events, i).ct, At(ct, events, i).phase) == []
  }

  lemma {:induction false} BytesSnoc(events: seq<Event>, n: nat)
    requires n < |events|
    ensures BytesReceived(events[..n + 1]) == BytesReceived(events[..n]) + EventBytes(events[n])
    decreases n
  {
    if n == 0 {
      assert events[..1] == [events[0]] && events[..0] == [];
      assert events[..1][1..] == [] && BytesReceived(events[..1]) == EventBytes(events[0]) + [];
    } else {
      var more := events[1..];
      assert events[..n + 1][1..] == more[..n] && events[..n][1..] == more[..n - 1];
      BytesSnoc(more, n - 1);
      SeqAssoc(EventBytes(events[0]), BytesReceived(more[..n - 1]), EventBytes(events[n]));
    }
  }

  lemma {:induction false} FedSnoc(q: Parser, bs: seq<byte>, b: byte)
    ensures FeedAll(q, bs + [b]) == Feed(FeedAll(q, bs), b)
  {
    FoldConcat(Feed, q, bs, [b]);
    FoldOne(Feed, FeedAll(q, bs), b);
  }

  /** What feeding alone leads to, from the bytes of the first `n` events. */
  ghost function Fed(ct: ChecksumType, events: seq<Event>, n: nat): Parser
    requires n <= |events|
  {
    FeedAll(Fresh(ct), BytesReceived(events[..n]))
  }

  lemma {:induction false} FedStep(ct: ChecksumType, events: seq<Event>, n: nat)
    requires n < |events|
    ensures Fed(ct, events, n + 1) == if events[n].Received? then Feed(Fed(ct, events, n), events[n].b) else Fed(ct, events, n)
    ensures Fed(ct, events, n + 1).kept == [] ==> Fed(ct, events, n).kept == []
  {
    BytesSnoc(events, n);
    match events[n]
    case Received(b) =>
      FedSnoc(Fresh(ct), BytesReceived(events[..n]), b);
      FeedOnlyAppends(Fed(ct, events, n), b);
    case _ =>
      assert BytesReceived(events[..n]) + [] == BytesReceived(events[..n]);
  }

  lemma {:induction false} StepShadows(w: World, q: Parser, e: Event)
    requires Shadows(w, q) && (e.TimedOut? ==> OpenBytes(q.ct, q.phase) == [])
    requires e.Received? ==> Feed(q, e.b).kept == []
    ensures Shadows(StepWorld(w, e), if e.Received? then Feed(q, e.b) else q)
  {
    match e
    case Received(b) => ReceiveShadows(w, q, b);
    case TimedOut =>
    case Taken => TakeShadows(w, q);
  }

  lemma {:induction false} RunShadows(ct: ChecksumType, events: seq<Event>, n: nat)
    requires n <= |events| && QuietTicks(ct, events, n) && Fed(ct, events, n).kept == []
    ensures Shadows(Run(ct, events[..n]), Fed(ct, events, n))
    decreases n
  {
    if n == 0 {
      assert events[..0] == [];
    } else {
      FedStep(ct, events, n - 1);
      RunShadows(ct, events, n - 1);
      RunSnoc(ct, events, n - 1);
      StepShadows(Run(ct, events[..n - 1]), Fed(ct, events, n - 1), events[n - 1]);
    }
  }

  lemma {:induction false} StepKept(w: World, e: Event)
    ensures w.parser.kept <= StepWorld(w, e).parser.kept
    ensures e.TimedOut? && OpenBytes(w.parser.ct, w.parser.phase) != [] ==> StepWorld(w, e).parser.kept != []
  {
    match e
    case Received(b) => FeedOnlyAppends(w.parser, b);
    case TimedOut =>
    case Taken =>
  }

  lemma {:induction false} KeptOneStep(ct: ChecksumType, events: seq<Event>, n: nat)
    requires n < |events|
    ensures At(ct, events, n).kept != [] ==> At(ct, events, n + 1).kept != []
    ensures events[n].TimedOut? && OpenBytes(At(ct, events, n).ct, At(ct, events, n).phase) != [] ==>
      At(ct, events, n + 1).kept != []
  {
    RunSnoc(ct, events, n);
    StepKept(Run(ct, events[..n]), events[n]);
  }

  /** An attempt that was given up has left raw content, and raw content never goes away. */
  lemma {:induction false} GivenUpLeavesRaw(ct: ChecksumType, events: seq<Event>, n: nat)
    requires n <= |events| && !QuietTicks(ct, events, n)
    ensures At(ct, events, n).kept != []
  {
    var i :| 0 <= i < n && events[i].TimedOut? && OpenBytes(At(ct, events, i).ct, At(ct, events, i).phase) != [];
    KeptOneStep(ct, events, i);
    forall k: nat | i + 1 <= k < n && At(ct, events, k).kept != [] ensures At(ct, events, k + 1).kept != [] {
      KeptOneStep(ct, events, k);
    }
    FromThenOn((k: nat) => k <= |events| && At(ct, events, k).kept != [], i + 1, n);
  }

  // ---------------------------------------------------------------- part of an encoded stream

  /** What the bytes received so far have to be. */
  ghost predicate PartOf(ct: ChecksumType, frames: seq<Frame>, events: seq<Event>, rest: seq<byte>) {
    AllSendable(frames) && BytesReceived(events) + rest == EncodedStream(ct, frames)
  }

  /** Feeding a part of an encoded stream keeps nothing raw and decodes the first of its frames. */
  lemma {:induction false} PartFed(ct: ChecksumType, frames: seq<Frame>, events: seq<Event>, rest: seq<byte>)
    requires PartOf(ct, frames, events, rest)
    ensures var q := Fed(ct, events, |events|);
      q.kept == [] && q.frames <= frames && (rest == [] ==> q.frames == frames)
  {
    assert events[..|events|] == events;
    var q := Fed(ct, events, |events|);
    StreamRoundTrip(ct, frames);
    FoldConcat(Feed, Fresh(ct), BytesReceived(events), rest);
    FedOnlyAppends(Fresh(ct), BytesReceived(events));
    FedOnlyAppends(q, rest);
    var end := FeedAll(q, rest);
    assert end == FeedAll(Fresh(ct), EncodedStream(ct, frames));
    assert end.frames == Queued(end) == frames && end.kept == Settled(end) == [];
    if rest == [] { assert end == q; }
  }

  lemma {:induction false} EarlierFed(ct: ChecksumType, events: seq<Event>, n: nat, m: nat)
    requires n <= m <= |events| && Fed(ct, events, m).kept == []
    ensures Fed(ct, events, n).kept == []
  {
    forall k: nat | n <= k < m && Fed(ct, events, k).kept != [] ensures Fed(ct, events, k + 1).kept != [] {
      FedStep(ct, events, k);
    }
    if Fed(ct, events, n).kept != [] {
      FromThenOn((k: nat) => k <= |events| && Fed(ct, events, k).kept != [], n, m);
    }
  }

  lemma {:induction false} QuietIsSafe(ct: ChecksumType, events: seq<Event>)
    requires QuietTicks(ct, events, |events|) && Fed(ct, events, |events|).kept == []
    ensures SafeReads(ct, events)
  {
    forall i | 0 <= i < |events| ensures !DrainsAt(ct, events, i) {
      EarlierFed(ct, events, i, |events|);
      RunShadows(ct, events, i);
    }
  }

  lemma {:induction false} SafeIsFaithful(ct: ChecksumType, events: seq<Event>)
    requires SafeReads(ct, events)
    ensures Faithful(ct, events, |events|)
  {
    forall j | 0 <= j < |events| ensures !SpoiltAt(ct, events, j) {
    }
    FaithfulExactly(ct, events, |events|);
  }

  /** Nothing raw has been handed out or is settled. */
  ghost predicate NothingRaw(c: Code) {
    !c.crashed && c.raw == [] && Settled(c.m.parser) == []
  }

  lemma {:induction false} QuietKeepsNothing(ct: ChecksumType, frames: seq<Frame>, events: seq<Event>, rest: seq<byte>)
    requires PartOf(ct, frames, events, rest) && QuietTicks(ct, events, |events|)
    ensures var c := RunCode(ct, events);
      NothingRaw(c) && c.m.queued <= frames && (rest == [] ==> c.m.queued == frames)
  {
    var n := |events|;
    assert events[..n] == events;
    PartFed(ct, frames, events, rest);
    RunShadows(ct, events, n);
    QuietIsSafe(ct, events);
    SafeIsFaithful(ct, events);
    RunTracks(ct, events, n);
  }

  lemma {:induction false} NothingKeptIsQuiet(ct: ChecksumType, events: seq<Event>)
    requires NothingRaw(RunCode(ct, events))
    ensures QuietTicks(ct, events, |events|)
  {
    var n := |events|;
    assert events[..n] == events;
    RunTracks(ct, events, n);
    RunKeeps(ct, events);
    if !QuietTicks(ct, events, n) { GivenUpLeavesRaw(ct, events, n); }
  }

  /**
   * At every moment of a run that has received a part of an encoded stream, in pieces of any size, ticking and taking
   * frames out at any time: no raw content has come up exactly when no tick gave an open frame up. Then no read has
   * drained the buffer, and the frames handed out and queued are the first of those sent; in the end they are all of them.
   */
  lemma {:induction false} AnyChunking(ct: ChecksumType, frames: seq<Frame>, events: seq<Event>, rest: seq<byte>)
    requires PartOf(ct, frames, events, rest)
    ensures var c := RunCode(ct, events);
      && (NothingRaw(c) <==> QuietTicks(ct, events, |events|))
      && (QuietTicks(ct, events, |events|) ==>
           SafeReads(ct, events) && c.m.queued <= frames && (rest == [] ==> c.m.queued == frames))
  {
    if QuietTicks(ct, events, |events|) {
      QuietKeepsNothing(ct, frames, events, rest);
      PartFed(ct, frames, events, rest);
      QuietIsSafe(ct, events);
    } else if NothingRaw(RunCode(ct, events)) {
      NothingKeptIsQuiet(ct, events);
    }
  }
}
