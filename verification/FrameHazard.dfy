// Draining raw content in front of an attempt whose payload end is recorded, as runs of the decoder: a frame comes out
// with a byte too many, or the decoder fails on an index.

module FrameHazard {
  import opened Bytes
  import opened Checksum
  import opened Frame
  import opened FrameParser
  import opened FrameRoundTrip
  import opened FrameMachine
  import opened FrameRun

  /** Bytes received one after the other. */
  function Arrivals(bs: seq<byte>): seq<Event> {
    if bs == [] then [] else [Received(bs[0])] + Arrivals(bs[1..])
  }

  /** Arrivals lead to where the machine's steps lead. */
  ghost predicate Arrives(c: Code, bs: seq<byte>) {
    LedTo(c, bs, FeedMachineAll(c.m, bs), Fold(StepCode, c, Arrivals(bs)))
  }

  predicate LedTo(c: Code, bs: seq<byte>, r: Option<Machine>, after: Code) {
    match r case None => after.crashed case Some(m) => after == c.(m := m, received := c.received + bs)
  }

  lemma LedOneMore(c: Code, m: Machine, b: byte, rest: seq<byte>, bs: seq<byte>, r: Option<Machine>, after: Code)
    requires bs == [b] + rest && LedTo(c.(m := m, received := c.received + [b]), rest, r, after)
    ensures LedTo(c, bs, r, after)
  {
    assert c.received + [b] + rest == c.received + bs;
  }

  lemma {:induction false} NoArrivals(c: Code)
    ensures Arrives(c, [])
  {
    assert c.received + [] == c.received;
  }

  lemma {:induction false} LastArrival(c: Code, bs: seq<byte>)
    requires !c.crashed && bs != [] && FeedMachine(c.m, bs[0]) == None
    ensures Arrives(c, bs)
  {
    FirstArrival(c, bs);
    CrashedStays(StepCode(c, Received(bs[0])), Arrivals(bs[1..]));
  }

  lemma {:induction false} OneMoreArrival(c: Code, m: Machine, bs: seq<byte>)
    requires !c.crashed && bs != [] && FeedMachine(c.m, bs[0]) == Some(m)
    requires Arrives(c.(m := m, received := c.received + [bs[0]]), bs[1..])
    ensures Arrives(c, bs)
  {
    FirstArrival(c, bs);
    var d := c.(m := m, received := c.received + [bs[0]]);
    LedOneMore(c, m, bs[0], bs[1..], bs, FeedMachineAll(m, bs[1..]), Fold(StepCode, d, Arrivals(bs[1..])));
  }

  lemma {:induction false} ArrivalsRun(c: Code, bs: seq<byte>)
    requires !c.crashed
    ensures Arrives(c, bs)
    decreases |bs|
  {
    if bs == [] {
      NoArrivals(c);
    } else {
      match FeedMachine(c.m, bs[0])
      case None => LastArrival(c, bs);
      case Some(m) =>
        ArrivalsRun(c.(m := m, received := c.received + [bs[0]]), bs[1..]);
        OneMoreArrival(c, m, bs);
    }
  }

  lemma {:induction false} FirstArrival(c: Code, bs: seq<byte>)
    requires !c.crashed && bs != []
    ensures Fold(StepCode, c, Arrivals(bs)) == Fold(StepCode, StepCode(c, Received(bs[0])), Arrivals(bs[1..]))
  {
    assert Arrivals(bs)[0] == Received(bs[0]) && Arrivals(bs)[1..] == Arrivals(bs[1..]);
  }

  lemma {:induction false} CrashedStays(c: Code, events: seq<Event>)
    requires c.crashed
    ensures Fold(StepCode, c, events) == c
    decreases |events|
  {
    if events != [] { CrashedStays(c, events[1..]); }
  }

  // ---------------------------------------------------------------- stray bytes and a frame up to its EOF

  const STRAY: byte := 0x41
  const HEAD: seq<byte> := [SOF, 0x54, 0x78, EOF]
  const SENTINEL: seq<byte> := [0x30, 0x30, 0x30, 0x30]

  function StrayBytes(n: nat): seq<byte> {
    seq(n, _ => STRAY)
  }

  function Strayed(n: nat): Parser {
    if n == 0 then Fresh(Internet) else Append(Strayed(n - 1), Kept([STRAY]))
  }

  lemma {:induction false} StraysLead(n: nat)
    requires n < 100
    ensures Leads(Fresh(Internet), StrayBytes(n), Strayed(n))
    ensures Strayed(n).kept == StrayBytes(n) && Strayed(n).phase == Idle && Strayed(n).frames == []
    ensures Strayed(n).ct == Internet && Strayed(n).rawTaken == 0 && Strayed(n).framesTaken == 0
  {
    if n == 0 {
      RunsNone(Feed, Fresh(Internet));
      assert StrayBytes(0) == [];
    } else {
      StraysLead(n - 1);
      var p := Strayed(n - 1);
      assert [] + [STRAY] == [STRAY];
      LeadsOne(p, STRAY);
      LeadsThen(Fresh(Internet), StrayBytes(n - 1), p, [STRAY], Strayed(n));
      assert StrayBytes(n - 1) + [STRAY] == StrayBytes(n);
    }
  }

  /** The payload end is recorded; `n` stray bytes are settled in front of the attempt. */
  function Exposed(n: nat): Parser {
    Strayed(n).(phase := InSum(0x54, [0x78], [0x78], []))
  }

  lemma {:induction false} HeadLeads(p: Parser)
    requires p.ct == Internet && p.phase == Idle && CursorsFit(p) && Occupancy(p) < 500
    ensures Leads(p, HEAD, p.(phase := InSum(0x54, [0x78], [0x78], [])))
  {
    PayloadLeads(p);
    EofLeads(p);
    LeadsThen(p, [SOF, 0x54] + [0x78], p.(phase := InData(0x54, [0x78], [0x78])), [EOF],
              p.(phase := InSum(0x54, [0x78], [0x78], [])));
    assert [SOF, 0x54] + [0x78] + [EOF] == HEAD;
  }

  lemma {:induction false} PayloadLeads(p: Parser)
    requires p.ct == Internet && p.phase == Idle && CursorsFit(p) && Occupancy(p) < 500
    ensures Leads(p, [SOF, 0x54] + [0x78], p.(phase := InData(0x54, [0x78], [0x78])))
  {
    var start := p.(phase := InData(0x54, [], []));
    assert Escape([0x78]) == [0x78];
    FeedHeader(p, 0x54);
    FeedBody(start, 0x54, [0x78]);
    LeadsThen(p, [SOF, 0x54], start, [0x78], p.(phase := InData(0x54, [0x78], [0x78])));
  }

  lemma {:induction false} EofLeads(p: Parser)
    requires p.ct == Internet && p.phase == Idle && CursorsFit(p) && Occupancy(p) < 500
    ensures Leads(p.(phase := InData(0x54, [0x78], [0x78])), [EOF], p.(phase := InSum(0x54, [0x78], [0x78], [])))
  {
    assert Escape([0x78]) == [0x78];
    FeedEofs(p.(phase := InData(0x54, [0x78], [0x78])), 0x54, [0x78], [0x78]);
  }

  /** The run up to the drain. */
  function BeforeDrain(n: nat): seq<byte> {
    StrayBytes(n) + HEAD
  }

  lemma {:induction false} ExposedRun(n: nat)
    requires 0 < n < 100
    ensures FeedAll(Fresh(Internet), BeforeDrain(n)) == Exposed(n)
    ensures FeedMachineAll(Start(Internet), BeforeDrain(n)) == Some(Machine(Exposed(n), 0, []))
    ensures Settled(Exposed(n)) == StrayBytes(n)
  {
    StraysLead(n);
    HeadLeads(Strayed(n));
    LeadsThen(Fresh(Internet), StrayBytes(n), Strayed(n), HEAD, Exposed(n));
    RunsFold(Feed, Fresh(Internet), BeforeDrain(n), Exposed(n));
    FreshAccounts();
    CleanBytes(Start(Internet), BeforeDrain(n), []);
  }

  lemma {:induction false} FreshAccounts()
    ensures Accounts(Fresh(Internet), [])
  {
  }

  /** The machine behind the drain: the recorded end has become `n` too large. */
  function AfterDrain(n: nat): Machine {
    Machine(Exposed(n).(rawTaken := n), n, [])
  }

  lemma {:induction false} DrainRun(n: nat)
    requires 0 < n < 100
    ensures TakeMachine(Machine(Exposed(n), 0, [])) == (AfterDrain(n), Some(Frame(TYPE_RAW, StrayBytes(n))))
  {
    ExposedRun(n);
    StraysLead(n);
  }

  /** Waiting for the checksum of the frame. */
  ghost predicate Awaits(m: Machine, sum: seq<byte>) {
    m.parser.ct == Internet && m.parser.phase == InSum(0x54, [0x78], [0x78], sum) && Occupancy(m.parser) < 500 + |sum|
  }

  lemma {:induction false} AwaitsAfterDrain(n: nat)
    requires 0 < n < 100
    ensures Awaits(AfterDrain(n), []) && AfterDrain(n).parser.frames == [] && AfterDrain(n).parser.framesTaken == 0
  {
    StraysLead(n);
  }

  function WithSum(m: Machine, sum: seq<byte>): Machine {
    m.(parser := m.parser.(phase := InSum(0x54, [0x78], [0x78], sum)))
  }

  lemma {:induction false} OneSumByte(m: Machine, sum: seq<byte>, more: seq<byte>)
    requires Awaits(m, sum) && |sum| < 3 && more == sum + [0x30]
    ensures FeedMachine(m, 0x30) == Some(WithSum(m, more)) && Awaits(WithSum(m, more), more)
  {
    SumByteRun(m.parser, sum);
  }

  /** The checksum arrives: three bytes open, and the fourth completes the frame. */
  lemma {:induction false} SumRun(m: Machine)
    requires Awaits(m, [])
    ensures var last := WithSum(m, [0x30, 0x30, 0x30]);
      FeedMachineAll(m, SENTINEL) == FeedMachine(last, 0x30) && Awaits(last, [0x30, 0x30, 0x30])
  {
    assert [] + [0x30] == [0x30] && [0x30] + [0x30] == [0x30, 0x30] && [0x30, 0x30] + [0x30] == [0x30, 0x30, 0x30];
    var a, b, c := WithSum(m, [0x30]), WithSum(m, [0x30, 0x30]), WithSum(m, [0x30, 0x30, 0x30]);
    OneSumByte(m, [], [0x30]);
    OneSumByte(a, [0x30], [0x30, 0x30]);
    OneSumByte(b, [0x30, 0x30], [0x30, 0x30, 0x30]);
    FourBytes(m, a, b, c);
  }

  lemma {:induction false} LastCompletes(m: Machine)
    requires Awaits(m, [0x30, 0x30, 0x30])
    ensures Completes(m.parser, 0x30)
  {
    assert [0x30, 0x30, 0x30] + [0x30] == SENTINEL;
  }

  lemma {:induction false} SumByteRun(p: Parser, sum: seq<byte>)
    requires p.ct == Internet && p.phase == InSum(0x54, [0x78], [0x78], sum) && |sum| < 3 && Occupancy(p) < 510
    ensures Feed(p, 0x30) == p.(phase := InSum(0x54, [0x78], [0x78], sum + [0x30]))
  {
  }

  lemma {:induction false} FourBytes(m: Machine, a: Machine, b: Machine, c: Machine)
    requires FeedMachine(m, 0x30) == Some(a) && FeedMachine(a, 0x30) == Some(b) && FeedMachine(b, 0x30) == Some(c)
    ensures FeedMachineAll(m, SENTINEL) == FeedMachine(c, 0x30)
  {
    var s1, s2, s3 := SENTINEL[1..], SENTINEL[2..], SENTINEL[3..];
    assert s1[1..] == s2 && s2[1..] == s3 && s3[1..] == [] && s1[0] == s2[0] == s3[0] == 0x30;
    assert FeedMachineAll(m, SENTINEL) == FeedMachineAll(a, s1);
    assert FeedMachineAll(a, s1) == FeedMachineAll(b, s2);
    assert FeedMachineAll(b, s2) == FeedMachineAll(c, s3);
    LastByte(c, s3);
  }

  lemma {:induction false} LastByte(m: Machine, bs: seq<byte>)
    requires |bs| == 1
    ensures FeedMachineAll(m, bs) == FeedMachine(m, bs[0])
  {
    assert bs[1..] == [];
  }

  lemma {:induction false} HazardPayload()
    ensures DecodeSpan(HEAD + SENTINEL, 2, 4) == Some([0x78, EOF])
  {
    var span := HEAD + SENTINEL;
    assert DecodeSpan(span, 4, 4) == Some([]);
    assert DecodeSpan(span, 3, 4) == Prepend(span[3], DecodeSpan(span, 4, 4));
    assert DecodeSpan(span, 2, 4) == Prepend(span[2], DecodeSpan(span, 3, 4));
    assert [0x78] + ([EOF] + []) == [0x78, EOF];
  }

  /** Stray bytes, a frame up to its EOF, a read, the checksum, a read. */
  function HazardEvents(n: nat): seq<Event> {
    Arrivals(BeforeDrain(n)) + [Taken] + Arrivals(SENTINEL)
  }

  lemma {:induction false} HazardSteps(n: nat)
    requires 0 < n < 100
    ensures var c := RunCode(Internet, HazardEvents(n));
      match FeedMachineAll(AfterDrain(n), SENTINEL)
      case None => c.crashed
      case Some(m) => c == Code(m, BeforeDrain(n) + SENTINEL, StrayBytes(n), [], false)
  {
    var c0 := Code(Start(Internet), [], [], [], false);
    var a := Arrivals(BeforeDrain(n));
    ExposedRun(n);
    DrainRun(n);
    ArrivalsRun(c0, BeforeDrain(n));
    FoldConcat(StepCode, c0, a, [Taken]);
    FoldConcat(StepCode, c0, a + [Taken], Arrivals(SENTINEL));
    assert [] + BeforeDrain(n) == BeforeDrain(n) && [] + StrayBytes(n) == StrayBytes(n);
    var c1 := c0.(m := Machine(Exposed(n), 0, []), received := BeforeDrain(n));
    FoldOne(StepCode, c1, Taken);
    var c2 := c1.(m := AfterDrain(n), raw := StrayBytes(n));
    assert StepCode(c1, Taken) == c2;
    ArrivalsRun(c2, SENTINEL);
  }

  /** What is read back when the recorded end is one too large. */
  lemma {:induction false} ReadsOneMore(m: Machine)
    requires Awaits(m, [0x30, 0x30, 0x30]) && m.stale == 1
    ensures ReadBack(Internet, m.parser.phase, 0x30, 1) == Some(Frame(0x54, [0x78, EOF]))
  {
    assert OpenBytes(Internet, m.parser.phase) + [0x30] == HEAD + SENTINEL;
    HazardPayload();
  }

  /** The machine behind the last checksum byte. */
  lemma {:induction false} CorruptedFrame(m: Machine)
    requires Awaits(m, [0x30, 0x30, 0x30]) && m.stale == 1 && m.queued == [] && m.parser.frames == []
    ensures var r := FeedMachine(m, 0x30);
      && r.Some? && r.value.queued == [Frame(0x54, [0x78, EOF])]
      && r.value.parser.frames == [Frame(0x54, [0x78])] && r.value.parser.framesTaken == m.parser.framesTaken
  {
    LastCompletes(m);
    ReadsOneMore(m);
    assert Unescape([0x78]) == Some([0x78] + []) && [0x78] + [] == [0x78];
    FeedFrames(m.parser, 0x30);
    FeedTakesNone(m.parser, 0x30);
  }

  /** With one stray byte in front, the frame with payload `x` is queued with the payload `x` and EOF. */
  lemma {:induction false} DrainCorrupts()
    ensures var c := RunCode(Internet, HazardEvents(1));
      && !c.crashed && c.m.queued == [Frame(0x54, [0x78, EOF])]
      && c.m.parser.frames == [Frame(0x54, [0x78])] && !NoneSpoilt(Internet, HazardEvents(1), |HazardEvents(1)|)
  {
    hide Feed, FeedMachine, Run, SpoiltAt;
    HazardSteps(1);
    AwaitsAfterDrain(1);
    SumRun(AfterDrain(1));
    CorruptedFrame(WithSum(AfterDrain(1), [0x30, 0x30, 0x30]));
    var e := HazardEvents(1);
    assert e[..|e|] == e;
    RunTracks(Internet, e, |e|);
    FaithfulExactly(Internet, e, |e|);
  }

  lemma {:induction false} SumFails(n: nat)
    requires 6 <= n < 100
    ensures FeedMachineAll(AfterDrain(n), SENTINEL) == None
  {
    AwaitsAfterDrain(n);
    SumRun(AfterDrain(n));
    var last := WithSum(AfterDrain(n), [0x30, 0x30, 0x30]);
    LastCompletes(last);
    EndBeyondAttemptCrashes(last, 0x30);
  }

  /** With six or more, the recorded end lies beyond the buffer, and the decoder fails. */
  lemma {:induction false} DrainCrashes(n: nat)
    requires 6 <= n < 100
    ensures RunCode(Internet, HazardEvents(n)).crashed
  {
    HazardSteps(n);
    SumFails(n);
  }
}
