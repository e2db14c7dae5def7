// Any sequence of inject, tick and get calls on one decoder, as a run of its machine.

module FrameReplay {
  import opened Bytes
  import opened Checksum
  import opened Frame
  import opened FrameParser
  import opened FrameRoundTrip
  import opened FrameMachine
  import opened FrameRun
  import opened FrameHazard
  import opened FrameDecoder

  datatype Command = Byte(b: byte) | TickAt(now: nat) | Read

  /** A tick is an event only when it gives an attempt up. */
  function OneEvent(c: Command, fired: bool): seq<Event> {
    match c
    case Byte(b) => [Received(b)]
    case TickAt(_) => if fired then [TimedOut] else []
    case Read => [Taken]
  }

  function EventsOf(script: seq<Command>, fired: seq<bool>): seq<Event>
    requires |fired| == |script|
  {
    if script == [] then []
    else
      var n := |script| - 1;
      EventsOf(script[..n], fired[..n]) + OneEvent(script[n], fired[n])
  }

  lemma {:induction false} OneMoreCommand(ct: ChecksumType, script: seq<Command>, fired: seq<bool>, n: nat, f: bool)
    requires n < |script| && |fired| == n
    ensures EventsOf(script[..n + 1], fired + [f]) == EventsOf(script[..n], fired) + OneEvent(script[n], f)
    ensures RunCode(ct, EventsOf(script[..n + 1], fired + [f])) ==
      Fold(StepCode, RunCode(ct, EventsOf(script[..n], fired)), OneEvent(script[n], f))
  {
    assert script[..n + 1][..n] == script[..n] && (fired + [f])[..n] == fired;
    FoldConcat(StepCode, Code(Start(ct), [], [], [], false), EventsOf(script[..n], fired), OneEvent(script[n], f));
  }

  /** What one command does to a decoder that stands for `c`. */
  method Obey(d: Decoder, cmd: Command, ghost c: Code)
    returns (got: Option<Frame>, isRaw: bool, crashed: bool, ghost fired: bool)
    requires d.Valid() && !c.crashed && c.m == d.Now()
    modifies d, d.running
    ensures d.running == old(d.running) || fresh(d.running)
    ensures var e := Fold(StepCode, c, OneEvent(cmd, fired));
      && crashed == e.crashed
      && (!crashed ==> d.Valid() && e.m == d.Now())
      && (!crashed ==> e.raw == if got.Some? && isRaw then c.raw + got.value.data else c.raw)
      && (!crashed ==> e.frames == if got.Some? && !isRaw then c.frames + [got.value] else c.frames)
  {
    hide Feed, ReadBack, Accounts, Decoder.Represents;
    got, isRaw, crashed, fired := None, false, false, false;
    match cmd
    case Byte(b) =>
      FoldOne(StepCode, c, Received(b));
      var st := d.Inject(b);
      crashed := st.None?;
    case TickAt(now) =>
      FoldOne(StepCode, c, TimedOut);
      ghost var before := d.Now();
      var st := d.Tick(now);
      fired := d.Now() != before;
    case Read =>
      FoldOne(StepCode, c, Taken);
      isRaw := d.frames == [];
      got := d.Get();
  }

  /**
   * Whatever the decoder is asked to do, in whatever order, what it hands out is what its run hands out, and it fails
   * exactly where its run does.
   */
  method Replay(ct: ChecksumType, script: seq<Command>)
    returns (raw: seq<byte>, frames: seq<Frame>, crashed: bool, ghost done: nat, ghost fired: seq<bool>)
    ensures done <= |script| && |fired| == done && (!crashed ==> done == |script|)
    ensures var c := RunCode(ct, EventsOf(script[..done], fired));
      crashed == c.crashed && (!crashed ==> raw == c.raw && frames == c.frames)
  {
    var d := new Decoder(ct);
    raw, frames, fired, done := [], [], [], 0;
    ghost var c := Code(Start(ct), [], [], [], false);
    for i := 0 to |script|
      invariant done == i && |fired| == i && fresh(d) && fresh(d.running) && d.Valid()
      invariant c == RunCode(ct, EventsOf(script[..i], fired))
      invariant !c.crashed && c.m == d.Now() && raw == c.raw && frames == c.frames
    {
      var got, isRaw, failed;
      ghost var f;
      got, isRaw, failed, f := Obey(d, script[i], c);
      OneMoreCommand(ct, script, fired, i, f);
      fired, done := fired + [f], i + 1;
      c := Fold(StepCode, c, OneEvent(script[i], f));
      if failed { return raw, frames, true, done, fired; }
      if got.Some? {
        if isRaw { raw := raw + got.value.data; } else { frames := frames + [got.value]; }
      }
    }
    assert script[..|script|] == script;
    crashed := false;
  }

  // ---------------------------------------------------------------- the hazard on a decoder

  method InjectAll(d: Decoder, bs: seq<byte>) returns (crashed: bool)
    requires d.Valid()
    modifies d, d.running
    ensures d.running == old(d.running) || fresh(d.running)
    ensures crashed <==> FeedMachineAll(old(d.Now()), bs).None?
    ensures !crashed ==> d.Valid() && Some(d.Now()) == FeedMachineAll(old(d.Now()), bs)
    decreases |bs|
  {
    if bs == [] { return false; }
    var st := d.Inject(bs[0]);
    if st.None? { return true; }
    crashed := InjectAll(d, bs[1..]);
  }

  /** Stray bytes, a frame with payload `x` up to its EOF, a read, the checksum. */
  method DrainInFront(n: nat) returns (d: Decoder, crashed: bool)
    requires 0 < n < 100
    ensures crashed <==> FeedMachineAll(AfterDrain(n), SENTINEL).None?
    ensures !crashed ==>
      d.Valid() && fresh(d) && fresh(d.running) && Some(d.Now()) == FeedMachineAll(AfterDrain(n), SENTINEL)
  {
    ExposedRun(n);
    DrainRun(n);
    d := new Decoder(Internet);
    var bytes := StrayBytes(n) + HEAD;
    crashed := InjectAll(d, bytes);
    var drained := d.Get();
    crashed := InjectAll(d, SENTINEL);
  }

  /** With one stray byte, the frame that comes out has the payload `x` and EOF. */
  method DrainedFrame() returns (f: Option<Frame>)
    ensures f == Some(Frame(0x54, [0x78, EOF]))
  {
    AwaitsAfterDrain(1);
    SumRun(AfterDrain(1));
    CorruptedFrame(WithSum(AfterDrain(1), [0x30, 0x30, 0x30]));
    var d, crashed := DrainInFront(1);
    f := d.Get();
  }

  /** With six or more, the last checksum byte makes the decoder fail. */
  method DrainedCrash(n: nat) returns (crashed: bool)
    requires 6 <= n < 100
    ensures crashed
  {
    SumFails(n);
    var d;
    d, crashed := DrainInFront(n);
  }
}
