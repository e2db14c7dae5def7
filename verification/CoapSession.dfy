// One CoAP exchange as a state machine: the session, what each reply does to it, and each round of the request loop.
// What arrives, how often and in what order is up to the network; when a retransmission is due is up to the clock.

module CoapSession {
  import opened Bytes
  import opened CoapMessage
  import opened CoapRequest

  const MAX_RETRANSMIT: nat := 5
  const MAX_UPLOAD: nat := 0x1_0000_0000

  datatype Failure = SpuriousContinue | DeviceReset

  /** `epoch` counts how often the message id has moved on; the id itself wraps. */
  datatype State = State(
    block1Num: nat, block1Szx: byte, block2Num: nat, block2Szx: byte, firstId: u16, epoch: nat, cleared: bool,
    respPayload: seq<byte>, respFormat: Option<u16>, respCode: byte, reqSize: nat,
    done: bool, error: Option<Failure>, needResend: bool)

  function IdAt(first: u16, epoch: nat): u16 {
    (first + epoch) % 0x1_0000
  }

  function MsgId(s: State): u16 {
    IdAt(s.firstId, s.epoch)
  }

  function Size(szx: byte): nat {
    BlockSize(szx % 8)
  }

  function Start(szx: byte, id: u16, reqSize: nat): State {
    State(0, szx, 0, szx, id, 0, false, [], None, 0, reqSize, false, None, false)
  }

  /** An acknowledgement that carries the current message id. */
  function Process(s: State, m: Parsed): State {
    var t := s.(respCode := m.code, respFormat := m.contentFormat, respPayload := s.respPayload + m.payload);
    if m.block2.Some? && m.block2.value.more then
      t.(block2Num := m.block2.value.num as nat + 1, block2Szx := m.block2.value.szx,
        epoch := s.epoch + 1, cleared := true, needResend := true)
    else if m.code == RESPONSE_CONTINUE && m.block1.Some? then ContinueOn(t, m.block1.value.szx)
    else t.(done := true)
  }

  /** 2.31 Continue: the next block of the body, unless the one before was the last. */
  function ContinueOn(s: State, szx: byte): State {
    if (s.block1Num + 1) * Size(szx) >= s.reqSize then s.(error := Some(SpuriousContinue), done := true)
    else s.(block1Szx := szx, block1Num := s.block1Num + 1, epoch := s.epoch + 1, needResend := true)
  }

  /** Any message that arrives. */
  function Deliver(s: State, m: Parsed): State {
    if m.msgId != MsgId(s) then s
    else
      match m.msgType
      case Rst => s.(error := Some(DeviceReset), done := true)
      case Ack => Process(s, m)
      case _ => s
  }

  // ---------------------------------------------------------------- the frame of a session state

  /** What stays the same over the exchange. */
  datatype Params = Params(
    method_: Method, token: byte, uri: string, contentFormat: Option<u16>, accept: Option<u16>, body: seq<byte>)

  function Low32(n: nat): u32 {
    n % 0x1_0000_0000
  }

  function Offset(s: State): nat {
    s.block1Num * Size(s.block1Szx)
  }

  /** The slice of the request body that the current block carries. */
  function Chunk(body: seq<byte>, s: State): seq<byte> {
    var off := Offset(s);
    if off > |body| then [] else if off + Size(s.block1Szx) >= |body| then body[off..] else body[off..off + Size(s.block1Szx)]
  }

  function Block1Of(body: seq<byte>, s: State): Option<Block> {
    if |body| > Size(s.block1Szx) || s.block1Num > 0 then
      Some(Block(Low32(s.block1Num), |body| > Offset(s) + Size(s.block1Szx), s.block1Szx))
    else None
  }

  /** The body still to be sent: none once the response is being fetched block by block. */
  function Effective(p: Params, s: State): seq<byte> {
    if s.cleared then [] else p.body
  }

  function FrameOf(p: Params, s: State): Request {
    var body := Effective(p, s);
    Request(p.method_, MsgId(s), p.token, p.uri, p.contentFormat, p.accept,
      if body == [] then None else Block1Of(body, s),
      Block(Low32(s.block2Num), false, s.block2Szx),
      if body == [] then [] else Chunk(body, s))
  }

  // ---------------------------------------------------------------- the request loop

  /** One round: the messages one poll hands over, and whether the retransmission deadline has passed by then. */
  datatype Poll = Poll(batch: seq<Parsed>, expired: bool)

  datatype Phase = Running | Finished | Failed | TimedOut

  datatype Sent = Sent(epoch: nat, frame: Request)

  datatype Exchange = Exchange(s: State, sent: seq<Sent>, retransmits: nat, phase: Phase)

  function Send(p: Params, x: Exchange): Exchange {
    x.(sent := x.sent + [Sent(x.s.epoch, FrameOf(p, x.s))])
  }

  function Begin(p: Params, szx: byte, id: u16): Exchange {
    Send(p, Exchange(Start(szx, id, |p.body|), [], 0, Running))
  }

  /** What the loop does after a poll has left the session in state `s`. */
  function React(p: Params, x: Exchange, s: State, expired: bool): Exchange {
    if s.error.Some? then x.(s := s, phase := Failed)
    else if s.needResend then
      Send(p, x.(s := s.(needResend := false), retransmits := 0, phase := if s.done then Finished else Running))
    else if s.done then x.(s := s, phase := Finished)
    else if !expired then x.(s := s)
    else if x.retransmits >= MAX_RETRANSMIT then x.(s := s, phase := TimedOut)
    else Send(p, x.(s := s, retransmits := x.retransmits + 1))
  }

  function Round(p: Params, x: Exchange, poll: Poll): Exchange {
    if x.phase != Running then x else React(p, x, Fold(Deliver, x.s, poll.batch), poll.expired)
  }

  /** Every round of an exchange; once it is over, nothing more happens. */
  function Rounds(p: Params, x: Exchange, polls: seq<Poll>): Exchange
    decreases |polls|
  {
    if polls == [] then x else Rounds(p, Round(p, x, polls[0]), polls[1..])
  }

  // ---------------------------------------------------------------- what holds whatever the device sends

  /** Replies as the parser hands them over: block fields within their bits. */
  predicate Plausible(m: Parsed) {
    (m.block1.Some? ==> Carries(m.block1.value)) && (m.block2.Some? ==> Carries(m.block2.value))
  }

  predicate AllPlausible(batch: seq<Parsed>) {
    forall i :: 0 <= i < |batch| ==> Plausible(batch[i])
  }

  lemma DecodedBlocksCarry(raw: u32)
    ensures Carries(DecodeBlock(raw))
  {
  }

  predicate SlotsPlausible(s: Slots) {
    (s.block1.Some? ==> Carries(s.block1.value)) && (s.block2.Some? ==> Carries(s.block2.value))
  }

  lemma {:induction false} KeepPlausible(s: Slots, opts: seq<Opt>)
    requires SlotsPlausible(s)
    ensures SlotsPlausible(Fold(Keep, s, opts))
    decreases |opts|
  {
    if opts != [] {
      DecodedBlocksCarry(DecodeUint(opts[0].val));
      KeepPlausible(Keep(s, opts[0]), opts[1..]);
    }
  }

  /** Every message the parser accepts is plausible. */
  lemma ParsedIsPlausible(msg: seq<byte>)
    requires ParseMessage(msg).Done?
    ensures Plausible(ParseMessage(msg).value)
  {
    var t := ReadTail(msg, 4 + msg[0] % 16, 0);
    KeepPlausible(NO_SLOTS, t.value.opts);
  }

  /** The block the upload has reached begins inside the body. */
  predicate InBody(s: State) {
    s.block1Num == 0 || Offset(s) < s.reqSize
  }

  lemma SizeAtLeast16(szx: byte)
    ensures 16 <= Size(szx) <= 2048
  {
    BlockSizes();
  }

  lemma MulMonotone(a: nat, b: nat, c: nat)
    requires b <= c
    ensures a * b <= a * c
  {
  }

  lemma DeliverKeepsInBody(s: State, m: Parsed)
    requires InBody(s)
    ensures InBody(Deliver(s, m)) && Deliver(s, m).reqSize == s.reqSize && Deliver(s, m).firstId == s.firstId
    ensures s.epoch <= Deliver(s, m).epoch
  {
  }

  lemma {:induction false} BatchKeepsInBody(s: State, batch: seq<Parsed>)
    requires InBody(s)
    ensures var t := Fold(Deliver, s, batch);
      InBody(t) && t.reqSize == s.reqSize && t.firstId == s.firstId && s.epoch <= t.epoch
    decreases |batch|
  {
    if batch != [] {
      DeliverKeepsInBody(s, batch[0]);
      BatchKeepsInBody(Deliver(s, batch[0]), batch[1..]);
    }
  }

  /** A chunk is the body from the block's offset on, cut to the block size: the slice never leaves the body. */
  lemma ChunkInBody(body: seq<byte>, s: State)
    requires InBody(s) && s.reqSize == |body|
    ensures Offset(s) <= |body|
    ensures var take := if |body| - Offset(s) < Size(s.block1Szx) then |body| - Offset(s) else Size(s.block1Szx);
      Chunk(body, s) == body[Offset(s)..Offset(s) + take]
    ensures |body| <= MAX_UPLOAD ==> Low32(s.block1Num) == s.block1Num && (body != [] ==> Offset(s) < MAX_UPLOAD)
  {
    SizeAtLeast16(s.block1Szx);
    MulMonotone(s.block1Num, 16, Size(s.block1Szx));
    var off, size := Offset(s), Size(s.block1Szx);
    if off + size >= |body| { assert body[off..] == body[off..|body|]; }
  }

  /** Frames of one epoch are one and the same, and they are at most the first and five repeats. */
  ghost predicate Disciplined(p: Params, x: Exchange) {
    && InBody(x.s) && x.s.reqSize == |p.body|
    && (forall i :: 0 <= i < |x.sent| ==>
         x.sent[i].epoch <= x.s.epoch && x.sent[i].frame.msgId == IdAt(x.s.firstId, x.sent[i].epoch))
    && (forall i, j :: 0 <= i < |x.sent| && 0 <= j < |x.sent| && x.sent[i].epoch == x.sent[j].epoch ==>
         x.sent[i].frame == x.sent[j].frame)
    && (forall e :: CountOf(x.sent, e) <= 1 + MAX_RETRANSMIT)
    && (x.phase == Running ==> Current(p, x))
  }

  /** While the loop runs, the current frame is out and has been repeated as often as counted. */
  predicate Current(p: Params, x: Exchange) {
    && x.sent != [] && x.sent[|x.sent| - 1] == Sent(x.s.epoch, FrameOf(p, x.s))
    && CountOf(x.sent, x.s.epoch) == 1 + x.retransmits && x.retransmits <= MAX_RETRANSMIT
    && !x.s.needResend && !x.s.done && x.s.error == None
  }

  /** How many frames went out under an epoch. */
  function CountOf(sent: seq<Sent>, e: nat): nat {
    if sent == [] then 0 else CountOf(sent[..|sent| - 1], e) + if sent[|sent| - 1].epoch == e then 1 else 0
  }

  lemma CountSnoc(sent: seq<Sent>, f: Sent)
    ensures forall e :: CountOf(sent + [f], e) == CountOf(sent, e) + if f.epoch == e then 1 else 0
  {
    forall e ensures CountOf(sent + [f], e) == CountOf(sent, e) + if f.epoch == e then 1 else 0 {
      assert (sent + [f])[..|sent|] == sent;
    }
  }

  lemma {:induction false} CountNone(sent: seq<Sent>, e: nat)
    requires forall i :: 0 <= i < |sent| ==> sent[i].epoch < e
    ensures CountOf(sent, e) == 0
    decreases |sent|
  {
    if sent != [] { CountNone(sent[..|sent| - 1], e); }
  }

  /** What a frame shows of the session: nothing that changes without the epoch moving on, except completion. */
  lemma DeliverMoves(s: State, m: Parsed)
    ensures var t := Deliver(s, m);
      || t == s
      || (t.epoch == s.epoch + 1 && t.needResend && (s.done ==> t.done))
      || (t.epoch == s.epoch && t.done && t.needResend == s.needResend)
  {
  }

  /** After a batch the loop either sees the state it had, or a new epoch to send for, or the end. */
  lemma {:induction false} BatchMoves(s: State, batch: seq<Parsed>)
    ensures var t := Fold(Deliver, s, batch);
      t == s || (t.epoch > s.epoch && t.needResend) || (t.epoch == s.epoch && t.done)
    ensures s.needResend ==> Fold(Deliver, s, batch).needResend
    ensures s.done ==> Fold(Deliver, s, batch).done
    ensures Fold(Deliver, s, batch).needResend && !s.needResend ==> Fold(Deliver, s, batch).epoch > s.epoch
    decreases |batch|
  {
    if batch != [] {
      DeliverMoves(s, batch[0]);
      BatchMoves(Deliver(s, batch[0]), batch[1..]);
    }
  }

  lemma {:induction false} RoundsOver(p: Params, x: Exchange, polls: seq<Poll>)
    ensures x.phase != Running ==> Rounds(p, x, polls) == x
    ensures x.s.epoch <= Rounds(p, x, polls).s.epoch
    decreases |polls|
  {
    if polls != [] {
      if x.phase == Running { BatchMoves(x.s, polls[0].batch); }
      RoundsOver(p, Round(p, x, polls[0]), polls[1..]);
    }
  }

  lemma RoundKeepsDiscipline(p: Params, x: Exchange, poll: Poll)
    requires Disciplined(p, x)
    ensures Disciplined(p, Round(p, x, poll))
  {
    if x.phase == Running {
      var s := Fold(Deliver, x.s, poll.batch);
      BatchKeepsInBody(x.s, poll.batch);
      BatchMoves(x.s, poll.batch);
      ReactKeepsDiscipline(p, x, s, poll.expired);
    }
  }

  lemma ReactKeepsDiscipline(p: Params, x: Exchange, s: State, expired: bool)
    requires Disciplined(p, x) && x.phase == Running
    requires InBody(s) && s.reqSize == x.s.reqSize && s.firstId == x.s.firstId
    requires s == x.s || (s.epoch > x.s.epoch && s.needResend) || (s.epoch == x.s.epoch && s.done)
    requires s.needResend ==> s.epoch > x.s.epoch
    ensures Disciplined(p, React(p, x, s, expired))
  {
    if s.error == None && s.needResend {
      ResendKeepsDiscipline(p, x, s);
    } else if s.error == None && !s.done && expired && x.retransmits < MAX_RETRANSMIT {
      RepeatKeepsDiscipline(p, x, s);
    }
  }

  /** A new epoch's first frame. */
  lemma ResendKeepsDiscipline(p: Params, x: Exchange, s: State)
    requires Disciplined(p, x) && x.phase == Running
    requires InBody(s) && s.reqSize == x.s.reqSize && s.firstId == x.s.firstId
    requires s.error == None && s.needResend && s.epoch > x.s.epoch
    ensures Disciplined(p, React(p, x, s, false)) && React(p, x, s, true) == React(p, x, s, false)
  {
    var t := s.(needResend := false);
    CountSnoc(x.sent, Sent(s.epoch, FrameOf(p, t)));
    CountNone(x.sent, s.epoch);
  }

  /** The current frame once more. */
  lemma RepeatKeepsDiscipline(p: Params, x: Exchange, s: State)
    requires Disciplined(p, x) && x.phase == Running && s == x.s && x.retransmits < MAX_RETRANSMIT
    ensures Disciplined(p, React(p, x, s, true))
  {
    CountSnoc(x.sent, Sent(s.epoch, FrameOf(p, s)));
  }

  /**
   * Whatever arrives, in every round: uploads stay inside the body; frames sent under one epoch are identical and
   * number at most 1 + MAX_RETRANSMIT.
   */
  lemma {:induction false} ExchangeIsDisciplined(p: Params, szx: byte, id: u16, polls: seq<Poll>)
    ensures Disciplined(p, Rounds(p, Begin(p, szx, id), polls))
  {
    var x := Begin(p, szx, id);
    var f := Sent(0, FrameOf(p, x.s));
    CountSnoc([], f);
    assert [] + [f] == [f];
    assert Disciplined(p, x);
    RoundsKeepDiscipline(p, x, polls);
  }

  lemma {:induction false} RoundsKeepDiscipline(p: Params, x: Exchange, polls: seq<Poll>)
    requires Disciplined(p, x)
    ensures Disciplined(p, Rounds(p, x, polls))
    decreases |polls|
  {
    if polls != [] {
      RoundKeepsDiscipline(p, x, polls[0]);
      RoundsKeepDiscipline(p, Round(p, x, polls[0]), polls[1..]);
    }
  }

  lemma DistinctIds(first: u16, a: nat, b: nat)
    requires a < 0x1_0000 && b < 0x1_0000 && IdAt(first, a) == IdAt(first, b)
    ensures a == b
  {
  }

  /** With fewer than 65536 epochs, frames under one message id are identical. */
  lemma FramesOfOneIdAgree(p: Params, x: Exchange, i: nat, j: nat)
    requires Disciplined(p, x) && x.s.epoch < 0x1_0000
    requires i < |x.sent| && j < |x.sent| && x.sent[i].frame.msgId == x.sent[j].frame.msgId
    ensures x.sent[i].frame == x.sent[j].frame
  {
    DistinctIds(x.s.firstId, x.sent[i].epoch, x.sent[j].epoch);
  }

  /** Blocks hold at least 16 bytes, so the number of the block reached is below a sixteenth of the body's size. */
  lemma BlockNumBounded(s: State)
    requires InBody(s)
    ensures 16 * s.block1Num < s.reqSize || s.block1Num == 0
  {
    SizeAtLeast16(s.block1Szx);
    MulMonotone(s.block1Num, 16, Size(s.block1Szx));
  }

  // ---------------------------------------------------------------- counting the Continues

  /** The reply is a 2.31 to the current frame, with no block of the response, and the session moves on to a new id. */
  predicate AcceptsContinue(s: State, m: Parsed) {
    && m.msgId == MsgId(s) && m.msgType == Ack && m.code == RESPONSE_CONTINUE && m.block1.Some?
    && !(m.block2.Some? && m.block2.value.more) && Deliver(s, m).epoch > s.epoch
  }

  /** How many replies of a batch are accepted as Continues. */
  function ContinuesOf(s: State, batch: seq<Parsed>): nat
    decreases |batch|
  {
    if batch == [] then 0
    else (if AcceptsContinue(s, batch[0]) then 1 else 0) + ContinuesOf(Deliver(s, batch[0]), batch[1..])
  }

  /** How many replies of a whole run are accepted as Continues. */
  function ContinuesIn(p: Params, x: Exchange, polls: seq<Poll>): nat
    decreases |polls|
  {
    if polls == [] then 0
    else
      (if x.phase == Running then ContinuesOf(x.s, polls[0].batch) else 0)
      + ContinuesIn(p, Round(p, x, polls[0]), polls[1..])
  }

  lemma DeliverCounts(s: State, m: Parsed)
    ensures Deliver(s, m).block1Num == s.block1Num + if AcceptsContinue(s, m) then 1 else 0
  {
  }

  lemma {:induction false} BatchCounts(s: State, batch: seq<Parsed>)
    ensures Fold(Deliver, s, batch).block1Num == s.block1Num + ContinuesOf(s, batch)
    decreases |batch|
  {
    if batch != [] {
      DeliverCounts(s, batch[0]);
      BatchCounts(Deliver(s, batch[0]), batch[1..]);
    }
  }

  lemma {:induction false} RoundCounts(p: Params, x: Exchange, poll: Poll)
    ensures Round(p, x, poll).s.block1Num ==
      x.s.block1Num + if x.phase == Running then ContinuesOf(x.s, poll.batch) else 0
  {
    BatchCounts(x.s, poll.batch);
  }

  lemma {:induction false} RoundsCount(p: Params, x: Exchange, polls: seq<Poll>)
    ensures Rounds(p, x, polls).s.block1Num == x.s.block1Num + ContinuesIn(p, x, polls)
    decreases |polls|
  {
    if polls != [] {
      RoundCounts(p, x, polls[0]);
      RoundsCount(p, Round(p, x, polls[0]), polls[1..]);
    }
  }

  /**
   * In every run, whatever arrives: the block number is the count of Continues accepted, and these are fewer than a
   * sixteenth of the body's size, or none.
   */
  lemma {:induction false} ContinuesAreBounded(p: Params, szx: byte, id: u16, polls: seq<Poll>)
    ensures var n := ContinuesIn(p, Begin(p, szx, id), polls);
      n == Rounds(p, Begin(p, szx, id), polls).s.block1Num && (16 * n < |p.body| || n == 0)
  {
    ExchangeIsDisciplined(p, szx, id, polls);
    RoundsCount(p, Begin(p, szx, id), polls);
    BlockNumBounded(Rounds(p, Begin(p, szx, id), polls).s);
  }
}
