// How an exchange ends, told by what was delivered: which message completes it, which faults end it, when it times out,
// and whose code and Content-Format the result carries.

module CoapOutcome {
  import opened Bytes
  import opened CoapMessage
  import opened CoapRequest
  import opened CoapSession

  // ---------------------------------------------------------------- what one message means

  /** An acknowledgement of the request that is out. */
  predicate Answers(s: State, m: Parsed) {
    m.msgType == Ack && m.msgId == MsgId(s)
  }

  /** More of the response is to be fetched. */
  predicate AnnouncesMore(m: Parsed) {
    m.block2.Some? && m.block2.value.more
  }

  /** 2.31 Continue: the next block of the body is asked for. */
  predicate AsksForMore(m: Parsed) {
    !AnnouncesMore(m) && m.code == 95 && m.block1.Some?
  }

  /** A reset, or a request for a block when the whole body has been sent. */
  function Fault(s: State, m: Parsed): Option<Failure> {
    if m.msgId != MsgId(s) then None
    else if m.msgType == Rst then Some(DeviceReset)
    else if Answers(s, m) && AsksForMore(m) && (s.block1Num + 1) * Size(m.block1.value.szx) >= s.reqSize then
      Some(SpuriousContinue)
    else None
  }

  /** The last part of the response. */
  predicate Completes(s: State, m: Parsed) {
    Answers(s, m) && !AnnouncesMore(m) && !AsksForMore(m)
  }

  /** Another frame has to be sent. */
  predicate MovesOn(s: State, m: Parsed) {
    Answers(s, m) && !Completes(s, m) && Fault(s, m).None?
  }

  // ---------------------------------------------------------------- what a batch means

  /** The last answer in a batch, or `last` when there is none. */
  function LastAnswer(s: State, batch: seq<Parsed>, last: Option<Parsed>): Option<Parsed>
    decreases |batch|
  {
    if batch == [] then last
    else LastAnswer(Deliver(s, batch[0]), batch[1..], if Answers(s, batch[0]) then Some(batch[0]) else last)
  }

  function LastFault(s: State, batch: seq<Parsed>, last: Option<Failure>): Option<Failure>
    decreases |batch|
  {
    if batch == [] then last
    else LastFault(Deliver(s, batch[0]), batch[1..], if Fault(s, batch[0]).Some? then Fault(s, batch[0]) else last)
  }

  predicate SomeCompletes(s: State, batch: seq<Parsed>)
    decreases |batch|
  {
    batch != [] && (Completes(s, batch[0]) || SomeCompletes(Deliver(s, batch[0]), batch[1..]))
  }

  predicate SomeMovesOn(s: State, batch: seq<Parsed>)
    decreases |batch|
  {
    batch != [] && (MovesOn(s, batch[0]) || SomeMovesOn(Deliver(s, batch[0]), batch[1..]))
  }

  lemma DeliverMeans(s: State, m: Parsed)
    ensures Deliver(s, m).error == if Fault(s, m).Some? then Fault(s, m) else s.error
    ensures Deliver(s, m).done <==> s.done || Completes(s, m) || Fault(s, m).Some?
    ensures Deliver(s, m).needResend <==> s.needResend || MovesOn(s, m)
    ensures Deliver(s, m).cleared <==> s.cleared || (Answers(s, m) && AnnouncesMore(m))
    ensures Answers(s, m) ==> Deliver(s, m).respCode == m.code && Deliver(s, m).respFormat == m.contentFormat
    ensures !Answers(s, m) ==> Deliver(s, m).respCode == s.respCode && Deliver(s, m).respFormat == s.respFormat
    ensures Deliver(s, m).respPayload == if Answers(s, m) then s.respPayload + m.payload else s.respPayload
  {
  }

  lemma {:induction false} BatchMeans(s: State, batch: seq<Parsed>)
    ensures var t := Fold(Deliver, s, batch);
      && t.error == LastFault(s, batch, s.error)
      && (t.done <==> s.done || SomeCompletes(s, batch) || LastFault(s, batch, None).Some?)
      && (t.needResend <==> s.needResend || SomeMovesOn(s, batch))
    decreases |batch|
  {
    hide Deliver, Fault, Completes, MovesOn;
    if batch != [] {
      DeliverMeans(s, batch[0]);
      BatchMeans(Deliver(s, batch[0]), batch[1..]);
      LastFaultStays(Deliver(s, batch[0]), batch[1..], None, Fault(s, batch[0]));
    }
  }

  lemma {:induction false} LastFaultStays(s: State, batch: seq<Parsed>, a: Option<Failure>, b: Option<Failure>)
    ensures LastFault(s, batch, a) == a || LastFault(s, batch, a) == LastFault(s, batch, b)
    ensures LastFault(s, batch, None).Some? ==> LastFault(s, batch, b) == LastFault(s, batch, None)
    ensures LastFault(s, batch, None).None? ==> LastFault(s, batch, b) == b
    decreases |batch|
  {
    hide Deliver, Fault;
    if batch != [] {
      var f := Fault(s, batch[0]);
      LastFaultStays(Deliver(s, batch[0]), batch[1..], if f.Some? then f else a, if f.Some? then f else b);
    }
  }

  /** The payloads of all answers, in the order they came. */
  function Payloads(s: State, batch: seq<Parsed>): seq<byte>
    decreases |batch|
  {
    if batch == [] then []
    else (if Answers(s, batch[0]) then batch[0].payload else []) + Payloads(Deliver(s, batch[0]), batch[1..])
  }

  /** A state shows the last answer, and is complete only after one. */
  predicate Shows(s: State, last: Option<Parsed>) {
    if last.Some? then s.respCode == last.value.code && s.respFormat == last.value.contentFormat
    else !s.done || s.error.Some?
  }

  lemma {:induction false} BatchShows(s: State, batch: seq<Parsed>, last: Option<Parsed>)
    requires Shows(s, last)
    ensures Shows(Fold(Deliver, s, batch), LastAnswer(s, batch, last))
    ensures Fold(Deliver, s, batch).respPayload == s.respPayload + Payloads(s, batch)
    decreases |batch|
  {
    hide Deliver, Fault;
    if batch == [] {
      assert s.respPayload + [] == s.respPayload;
    } else {
      var m := batch[0];
      DeliverMeans(s, m);
      BatchShows(Deliver(s, m), batch[1..], if Answers(s, m) then Some(m) else last);
      SeqAssoc(s.respPayload, if Answers(s, m) then m.payload else [], Payloads(Deliver(s, m), batch[1..]));
      assert s.respPayload + [] == s.respPayload;
    }
  }

  // ---------------------------------------------------------------- what a round and a run mean

  /** A state between rounds: nothing is pending. */
  predicate Waits(s: State) {
    s.error == None && !s.needResend && !s.done
  }

  /**
   * A round ends the exchange with the last fault there was; else with a response if a message completed it; else, if nothing
   * moved it on and the deadline has passed with five repeats out, with a timeout; and otherwise not. A frame goes out
   * exactly if there is no fault and something moved it on, or nothing completed it and a repeat is due.
   */
  lemma RoundEnds(p: Params, x: Exchange, poll: Poll)
    requires x.phase == Running && Waits(x.s)
    ensures var y, fault := Round(p, x, poll), LastFault(x.s, poll.batch, None);
      && y.s.error == fault
      && y.phase == (
        if fault.Some? then Failed
        else if SomeCompletes(x.s, poll.batch) then Finished
        else if !SomeMovesOn(x.s, poll.batch) && poll.expired && x.retransmits >= 5 then TimedOut
        else Running)
      && (y.phase == Running ==> Waits(y.s)) && (y.phase == Finished ==> y.s.done)
      && |y.sent| == |x.sent| + (
        if fault.None? && (SomeMovesOn(x.s, poll.batch)
          || (!SomeCompletes(x.s, poll.batch) && poll.expired && x.retransmits < 5)) then 1 else 0)
  {
    hide Deliver, LastFault, SomeCompletes, SomeMovesOn;
    BatchMeans(x.s, poll.batch);
  }

  /** The last answer of a whole run. */
  function AnswerOf(p: Params, x: Exchange, polls: seq<Poll>, last: Option<Parsed>): Option<Parsed>
    decreases |polls|
  {
    if polls == [] || x.phase != Running then last
    else AnswerOf(p, Round(p, x, polls[0]), polls[1..], LastAnswer(x.s, polls[0].batch, last))
  }

  /** The payloads of all answers of a run. */
  function PayloadOf(p: Params, x: Exchange, polls: seq<Poll>): seq<byte>
    decreases |polls|
  {
    if polls == [] || x.phase != Running then []
    else Payloads(x.s, polls[0].batch) + PayloadOf(p, Round(p, x, polls[0]), polls[1..])
  }

  /** The fault that ended a run. */
  function FaultOf(p: Params, x: Exchange, polls: seq<Poll>): Option<Failure>
    decreases |polls|
  {
    if polls == [] || x.phase != Running then None
    else
      var fault := LastFault(x.s, polls[0].batch, None);
      if fault.Some? then fault else FaultOf(p, Round(p, x, polls[0]), polls[1..])
  }

  lemma RoundShows(p: Params, x: Exchange, poll: Poll, last: Option<Parsed>)
    requires x.phase == Running && Shows(x.s, last)
    ensures Shows(Round(p, x, poll).s, LastAnswer(x.s, poll.batch, last))
    ensures Round(p, x, poll).s.respPayload == x.s.respPayload + Payloads(x.s, poll.batch)
  {
    hide Deliver, LastAnswer, Payloads;
    BatchShows(x.s, poll.batch, last);
  }

  /** Code, Content-Format and payload of a run are those of its answers, and its error is the fault that ended it. */
  lemma {:induction false} RunShows(p: Params, x: Exchange, polls: seq<Poll>, last: Option<Parsed>)
    requires Shows(x.s, last) && (x.phase == Running ==> Waits(x.s))
    ensures var y := Rounds(p, x, polls);
      && Shows(y.s, AnswerOf(p, x, polls, last))
      && y.s.respPayload == x.s.respPayload + PayloadOf(p, x, polls)
      && (x.phase == Running ==>
           y.s.error == FaultOf(p, x, polls) && (y.phase == Failed <==> y.s.error.Some?) && (y.phase == Finished ==> y.s.done))
    decreases |polls|
  {
    hide Round, LastAnswer, Payloads, LastFault, Shows;
    if polls == [] || x.phase != Running {
      RoundsOver(p, x, polls);
      assert x.s.respPayload + [] == x.s.respPayload;
    } else {
      var y := Round(p, x, polls[0]);
      RoundShows(p, x, polls[0], last);
      RoundEnds(p, x, polls[0]);
      RunShows(p, y, polls[1..], LastAnswer(x.s, polls[0].batch, last));
      SeqAssoc(x.s.respPayload, Payloads(x.s, polls[0].batch), PayloadOf(p, y, polls[1..]));
      if y.phase != Running { RoundsOver(p, y, polls[1..]); }
    }
  }

  // ---------------------------------------------------------------- timeouts

  lemma RoundTimesOut(p: Params, x: Exchange, poll: Poll)
    requires Disciplined(p, x) && x.phase == Running && Round(p, x, poll).phase == TimedOut
    ensures var y := Round(p, x, poll); y.sent == x.sent && y.s.epoch == x.s.epoch && CountOf(y.sent, y.s.epoch) == 6
  {
    hide Deliver;
    BatchMoves(x.s, poll.batch);
  }

  /** A timeout is reported only after six frames under the last message id. */
  lemma {:induction false} TimesOutAfterSix(p: Params, x: Exchange, polls: seq<Poll>)
    requires Disciplined(p, x) && x.phase == Running
    ensures var y := Rounds(p, x, polls); y.phase == TimedOut ==> CountOf(y.sent, y.s.epoch) == 6
    decreases |polls|
  {
    hide Round, Disciplined, CountOf;
    if polls != [] {
      var y := Round(p, x, polls[0]);
      RoundKeepsDiscipline(p, x, polls[0]);
      if y.phase == Running {
        TimesOutAfterSix(p, y, polls[1..]);
      } else {
        RoundsOver(p, y, polls[1..]);
        if y.phase == TimedOut { RoundTimesOut(p, x, polls[0]); }
      }
    }
  }

  /** Polls in which nothing arrives and the deadline has passed. */
  function Silence(n: nat): (polls: seq<Poll>)
    ensures |polls| == n
  {
    seq(n, _ => Poll([], true))
  }

  lemma {:induction false} SilentFrom(p: Params, x: Exchange, n: nat)
    requires x.phase == Running && Waits(x.s) && x.retransmits <= 5 && x.sent != [] && x.sent[0] == Sent(x.s.epoch, FrameOf(p, x.s))
    ensures var y, more := Rounds(p, x, Silence(n)), if n <= 5 - x.retransmits then n else 5 - x.retransmits;
      && y.sent == x.sent + seq(more, _ => x.sent[0])
      && y.phase == (if n <= 5 - x.retransmits then Running else TimedOut)
    decreases n
  {
    if n == 0 {
      assert x.sent + seq(0, _ => x.sent[0]) == x.sent;
    } else {
      var y := Round(p, x, Poll([], true));
      assert Silence(n)[0] == Poll([], true) && Silence(n)[1..] == Silence(n - 1);
      if x.retransmits < 5 {
        SilentFrom(p, y, n - 1);
        var more := if n <= 5 - x.retransmits then n else 5 - x.retransmits;
        assert x.sent + [x.sent[0]] + seq(more - 1, _ => x.sent[0]) == x.sent + seq(more, _ => x.sent[0]);
      } else {
        RoundsOver(p, y, Silence(n - 1));
        assert x.sent + seq(0, _ => x.sent[0]) == x.sent;
      }
    }
  }

  /** A silent device is sent the same frame once and at most five times more, and the sixth deadline is a timeout. */
  lemma SilentDevice(p: Params, szx: byte, id: u16, n: nat)
    ensures var y := Rounds(p, Begin(p, szx, id), Silence(n));
      && |y.sent| == (if n <= 5 then 1 + n else 6)
      && (forall i :: 0 <= i < |y.sent| ==> y.sent[i] == y.sent[0])
      && y.phase == (if n <= 5 then Running else TimedOut)
  {
    hide FrameOf;
    SilentFrom(p, Begin(p, szx, id), n);
  }

  // ---------------------------------------------------------------- what is sent next

  /**
   * What an answer that moves the exchange on changes: the next id; the block behind the one received, in its size, with the
   * request body done; or the next block of the body, in the size asked for. Any other message changes none of it.
   */
  lemma MovesMean(s: State, m: Parsed)
    ensures var t := Deliver(s, m);
      if !MovesOn(s, m) then
        && t.epoch == s.epoch && t.cleared == s.cleared && t.block1Num == s.block1Num && t.block1Szx == s.block1Szx
        && t.block2Num == s.block2Num && t.block2Szx == s.block2Szx
      else if AnnouncesMore(m) then
        && t.epoch == s.epoch + 1 && t.cleared && t.block1Num == s.block1Num && t.block1Szx == s.block1Szx
        && t.block2Num == m.block2.value.num + 1 && t.block2Szx == m.block2.value.szx
      else
        && t.epoch == s.epoch + 1 && t.cleared == s.cleared && t.block2Num == s.block2Num && t.block2Szx == s.block2Szx
        && t.block1Num == s.block1Num + 1 && t.block1Szx == m.block1.value.szx
  {
  }

  /**
   * A frame asks for the response block reached, and carries the body block reached, from the block number times the size on,
   * numbered and marked as the last or not unless the body is a single block; nothing of it once the body is done.
   */
  lemma FrameShows(p: Params, s: State)
    requires InBody(s) && s.reqSize == |p.body| <= MAX_UPLOAD
    ensures var f, off, size := FrameOf(p, s), s.block1Num * Size(s.block1Szx), Size(s.block1Szx);
      && f.block2 == Block(s.block2Num % 0x1_0000_0000, false, s.block2Szx)
      && if s.cleared || p.body == [] then f.payload == [] && f.block1 == None
         else
           && off < |p.body| && f.payload == p.body[off..if off + size < |p.body| then off + size else |p.body|]
           && f.block1 ==
              if |p.body| <= size then None
              else Some(Block(s.block1Num % 0x1_0000_0000, off + size < |p.body|, s.block1Szx))
  {
    SizeAtLeast16(s.block1Szx);
    ChunkInBody(p.body, s);
    if s.block1Num > 0 { MulMonotone(Size(s.block1Szx), 1, s.block1Num); }
  }

  // ---------------------------------------------------------------- what every frame asks

  /** The request as it was issued, under the message id of its epoch. */
  predicate AsIssued(p: Params, id: u16, f: Sent) {
    && f.frame.method_ == p.method_ && f.frame.token == p.token && f.frame.uri == p.uri
    && f.frame.contentFormat == p.contentFormat && f.frame.accept == p.accept
    && f.frame.msgId == (id + f.epoch) % 0x1_0000 && !f.frame.block2.more
  }

  predicate AllAsIssued(p: Params, id: u16, sent: seq<Sent>) {
    forall i :: 0 <= i < |sent| ==> AsIssued(p, id, sent[i])
  }

  lemma RoundAsIssued(p: Params, id: u16, x: Exchange, poll: Poll)
    requires Disciplined(p, x) && x.s.firstId == id && AllAsIssued(p, id, x.sent)
    ensures Round(p, x, poll).s.firstId == id && AllAsIssued(p, id, Round(p, x, poll).sent)
  {
    hide Deliver, FrameOf, AsIssued;
    if x.phase == Running {
      var s := Fold(Deliver, x.s, poll.batch);
      BatchKeepsInBody(x.s, poll.batch);
      FrameAsIssued(p, id, s);
      FrameAsIssued(p, id, s.(needResend := false));
    }
  }

  lemma FrameAsIssued(p: Params, id: u16, s: State)
    requires s.firstId == id
    ensures AsIssued(p, id, Sent(s.epoch, FrameOf(p, s)))
  {
    hide Chunk, Block1Of, Effective;
  }

  lemma {:induction false} RunAsIssued(p: Params, id: u16, x: Exchange, polls: seq<Poll>)
    requires Disciplined(p, x) && x.s.firstId == id && AllAsIssued(p, id, x.sent)
    ensures AllAsIssued(p, id, Rounds(p, x, polls).sent)
    decreases |polls|
  {
    hide Round, Disciplined, AllAsIssued;
    if polls != [] {
      RoundAsIssued(p, id, x, polls[0]);
      RoundKeepsDiscipline(p, x, polls[0]);
      RunAsIssued(p, id, Round(p, x, polls[0]), polls[1..]);
    }
  }

  /** In every run every frame asks for what was issued: method, token, URI, formats, and ids counting on from the first. */
  lemma EveryFrameAsks(p: Params, szx: byte, id: u16, polls: seq<Poll>)
    ensures AllAsIssued(p, id, Rounds(p, Begin(p, szx, id), polls).sent)
  {
    hide Rounds, Disciplined;
    BeginDisciplined(p, szx, id);
    RunAsIssued(p, id, Begin(p, szx, id), polls);
  }

  lemma BeginDisciplined(p: Params, szx: byte, id: u16)
    ensures Disciplined(p, Begin(p, szx, id))
  {
    ExchangeIsDisciplined(p, szx, id, []);
  }
}
