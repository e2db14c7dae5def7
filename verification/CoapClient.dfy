// The CoAP client: the session fields that a reply updates, the frame sender, and the request loop, proved to run the
// exchange round by round. Polls are the loop's input: what the device sent, and whether the deadline has passed.

module CoapClient {
  import opened Bytes
  import opened CoapMessage
  import opened CoapRequest
  import opened CoapOutcome
  import opened CoapSession
  import CoapCodec

  class Session {
    var block1Num: u32
    var block1Szx: byte
    var block2Num: u32
    var block2Szx: byte
    var msgId: u16
    var reqPayloadCleared: bool
    var respPayload: seq<byte>
    var respContentFormat: Option<u16>
    var respCode: byte
    var reqPayloadSize: nat
    var done: bool
    var error: Option<Failure>
    var needResend: bool
    ghost var firstId: u16
    ghost var epoch: nat

    /** The exchange state these fields stand for. */
    ghost function Abs(): State
      reads this
    {
      State(block1Num, block1Szx, block2Num, block2Szx, firstId, epoch, reqPayloadCleared, respPayload,
            respContentFormat, respCode, reqPayloadSize, done, error, needResend)
    }

    ghost predicate Valid()
      reads this
    {
      && InBody(Abs()) && reqPayloadSize <= MAX_UPLOAD && msgId == IdAt(firstId, epoch)
      && block1Szx < 8 && block2Szx < 8
    }

    constructor (szx: byte, id: u16, size: nat)
      requires szx < 8 && size <= MAX_UPLOAD
      ensures Valid() && Abs() == Start(szx, id, size)
    {
      block1Num, block1Szx, block2Num, block2Szx, msgId := 0, szx, 0, szx, id;
      reqPayloadCleared, respPayload, respContentFormat, respCode, reqPayloadSize := false, [], None, 0, size;
      done, error, needResend, firstId, epoch := false, None, false, id, 0;
    }

    /** Keep what an acknowledgement says, whatever it asks for. */
    method Absorb(parsed: Parsed)
      requires Valid()
      modifies `respCode, `respContentFormat, `respPayload
      ensures Valid() && Abs() == old(Abs()).(
        respCode := parsed.code, respFormat := parsed.contentFormat, respPayload := old(respPayload) + parsed.payload)
    {
      respCode := parsed.code;
      respContentFormat := parsed.contentFormat;
      assert respPayload + [] == respPayload;
      if parsed.payload != [] {
        respPayload := respPayload + parsed.payload;
      }
    }

    /** Take an acknowledgement that carries the current message id. */
    method ProcessResponse(parsed: Parsed)
      requires Valid() && Plausible(parsed)
      modifies this
      ensures Valid() && Abs() == Process(old(Abs()), parsed)
    {
      hide ContinueOn, IdAt, Size, AllPlausible;
      Absorb(parsed);
      if parsed.block2.Some? {
        var b2 := parsed.block2.value;
        if b2.more {
          block2Num := b2.num + 1;
          block2Szx := b2.szx;
          NextId();
          reqPayloadCleared := true;
          needResend := true;
          return;
        }
      }
      if parsed.code == RESPONSE_CONTINUE {
        if parsed.block1.Some? {
          ContinueUpload(parsed.block1.value);
          return;
        }
      }
      done := true;
    }

    method NextId()
      requires msgId == IdAt(firstId, epoch)
      modifies `msgId, `epoch
      ensures epoch == old(epoch) + 1 && msgId == IdAt(firstId, epoch)
    {
      msgId := (msgId + 1) % 0x1_0000;
      epoch := epoch + 1;
    }

    /** Move on to the next block of the body, unless the one before was the last. */
    method ContinueUpload(b1: Block)
      requires Valid() && Carries(b1)
      modifies this
      ensures Valid()
      ensures Abs() == ContinueOn(old(Abs()), b1.szx)
    {
      var nextOffset := (block1Num as nat + 1) * Size(b1.szx);
      if nextOffset >= reqPayloadSize {
        error := Some(SpuriousContinue);
        done := true;
        return;
      }
      SizeAtLeast16(b1.szx);
      MulMonotone(block1Num as nat + 1, 16, Size(b1.szx));
      block1Szx := b1.szx;
      block1Num := block1Num + 1;
      NextId();
      needResend := true;
    }

    /** Take any message: stale ids and other types are ignored, a reset ends the exchange. */
    method Receive(parsed: Parsed)
      requires Valid() && Plausible(parsed)
      modifies this
      ensures Valid() && Abs() == Deliver(old(Abs()), parsed)
    {
      if parsed.msgId != msgId { return; }
      match parsed.msgType
      case Rst =>
        error := Some(DeviceReset);
        done := true;
      case Ack => ProcessResponse(parsed);
      case _ =>
    }

    /** Take every message of one poll. */
    method ReceiveAll(batch: seq<Parsed>)
      requires Valid() && AllPlausible(batch)
      modifies this
      ensures Valid() && Abs() == Fold(Deliver, old(Abs()), batch)
    {
      for i := 0 to |batch|
        invariant Valid() && Abs() == Fold(Deliver, old(Abs()), batch[..i])
      {
        ghost var before := Abs();
        Receive(batch[i]);
        FoldConcat(Deliver, old(Abs()), batch[..i], [batch[i]]);
        FoldOne(Deliver, before, batch[i]);
        assert batch[..i] + [batch[i]] == batch[..i + 1];
      }
      assert batch[..|batch|] == batch;
    }
  }

  datatype Outcome =
    | Response(codeClass: nat, codeDetail: nat, contentFormat: Option<u16>, payload: seq<byte>)
    | Timeout
    | Protocol(why: Failure)
    | Waiting

  /** The result that an exchange state stands for; `Waiting` when the polls ran out before the loop ended. */
  function OutcomeOf(x: Exchange): Outcome {
    match x.phase
    case Running => Waiting
    case TimedOut => Timeout
    case Failed => Protocol(if x.s.error.Some? then x.s.error.value else DeviceReset)
    case Finished => Response(x.s.respCode / 32, x.s.respCode % 32, x.s.respFormat, x.s.respPayload)
  }

  /**
   * A result told by what was delivered: a response has the code and the Content-Format of the last answer and the payloads
   * of all, an error is the fault that ended the run, and a timeout comes after six frames under one message id.
   */
  predicate Reports(r: Outcome, x: Exchange, answer: Option<Parsed>, payloads: seq<byte>, fault: Option<Failure>) {
    match r
    case Response(codeClass, codeDetail, format, payload) =>
      && fault == None && answer.Some? && codeDetail < 32 && 32 * codeClass + codeDetail == answer.value.code
      && format == answer.value.contentFormat && payload == payloads
    case Protocol(why) => fault == Some(why)
    case Timeout => fault == None && CountOf(x.sent, x.s.epoch) == 6
    case Waiting => fault == None && x.phase == Running
  }

  lemma CodeParts(code: byte)
    ensures code % 32 < 32 && 32 * (code / 32) + code % 32 == code
  {
  }

  /** Whatever is delivered in whatever rounds, the result reports it. */
  lemma RunReports(p: Params, szx: byte, id: u16, polls: seq<Poll>)
    ensures var x := Begin(p, szx, id);
      var y := Rounds(p, x, polls);
      Reports(OutcomeOf(y), y, AnswerOf(p, x, polls, None), PayloadOf(p, x, polls), FaultOf(p, x, polls))
  {
    hide Rounds, Round, AnswerOf, PayloadOf, FaultOf, Disciplined, CountOf, FrameOf;
    var x := Begin(p, szx, id);
    var y := Rounds(p, x, polls);
    RunShows(p, x, polls, None);
    BeginDisciplined(p, szx, id);
    TimesOutAfterSix(p, x, polls);
    CodeParts(y.s.respCode);
    assert [] + PayloadOf(p, x, polls) == PayloadOf(p, x, polls);
  }

  /** Success is class 2, which is the codes from 64 to 95. */
  lemma SuccessIsClassTwo(r: Outcome, x: Exchange, answer: Option<Parsed>, payloads: seq<byte>, fault: Option<Failure>)
    requires Reports(r, x, answer, payloads, fault) && r.Response?
    ensures r.codeClass == 2 <==> 64 <= answer.value.code <= 95
  {
  }

  /** The wire form of every frame sent. */
  function Wires(sent: seq<Sent>): seq<seq<byte>> {
    if sent == [] then [] else Wires(sent[..|sent| - 1]) + [RequestWire(sent[|sent| - 1].frame)]
  }

  lemma WiresSnoc(sent: seq<Sent>, f: Sent)
    ensures Wires(sent + [f]) == Wires(sent) + [RequestWire(f.frame)]
  {
    assert (sent + [f])[..|sent|] == sent;
  }

  /** Since `before`, exactly the wire forms of `sent` have gone out. */
  ghost predicate Went(wire: seq<seq<byte>>, before: seq<seq<byte>>, sent: seq<Sent>) {
    wire == before + Wires(sent)
  }

  lemma WentNone(wire: seq<seq<byte>>)
    ensures Went(wire, wire, [])
  {
    assert wire + Wires([]) == wire;
  }

  lemma WentSnoc(wire: seq<seq<byte>>, before: seq<seq<byte>>, sent: seq<Sent>, f: Sent, bytes: seq<byte>)
    requires Went(wire, before, sent) && bytes == RequestWire(f.frame)
    ensures Went(wire + [bytes], before, sent + [f])
  {
    hide Wires;
    WiresSnoc(sent, f);
    SeqAssoc(before, Wires(sent), [bytes]);
  }

  class Client {
    var msgId: u16
    var token: byte
    var blockSize: u32
    var wire: seq<seq<byte>>

    ghost predicate Valid()
      reads this
    {
      SzxForSize(blockSize).Some?
    }

    /** The seed comes from the clock and the process id. */
    constructor (id: u16, tok: byte)
      ensures Valid() && msgId == id && token == tok && blockSize == 256 && wire == []
    {
      msgId, token, blockSize, wire := id, tok, 256, [];
    }

    /** Accept a block size exactly when it is a power of two from 16 to 1024. */
    method SetBlockSize(size: u32) returns (ok: bool)
      requires Valid()
      modifies `blockSize
      ensures Valid() && (ok <==> exists k: byte :: k < 7 && size == BlockSize(k))
      ensures blockSize == if ok then size else old(blockSize)
    {
      ok := SzxForSize(size).Some?;
      if ok { blockSize := size; }
    }

    /** Send the frame of the current session state. */
    method SendFrame(session: Session, p: Params, ghost before: seq<seq<byte>>, ghost x: Exchange)
      requires session.Valid() && session.reqPayloadSize == |p.body| && p.token == token
      requires session.Abs() == x.s && Went(wire, before, x.sent)
      modifies `wire
      ensures Went(wire, before, Send(p, x).sent)
    {
      hide Went, RequestWire, Size, IdAt;
      var effective := if session.reqPayloadCleared then [] else p.body;
      var blockSize := Size(session.block1Szx);
      var block1 := None;
      var chunk := [];
      if effective != [] {
        ChunkInBody(p.body, session.Abs());
        var offset := session.block1Num * blockSize;
        assert offset < 0x1_0000_0000;
        var remaining := |effective| - offset;
        var take := if remaining < blockSize then remaining else blockSize;
        chunk := effective[offset..offset + take];
        if |effective| > blockSize || session.block1Num > 0 {
          block1 := Some(Block(session.block1Num, remaining > blockSize, session.block1Szx));
        }
      }
      var request := Request(p.method_, session.msgId, token, p.uri, p.contentFormat, p.accept, block1,
                             Block(session.block2Num, false, session.block2Szx), chunk);
      assert request == FrameOf(p, session.Abs());
      var bytes := CoapCodec.EncodeRequest(request);
      WentSnoc(wire, before, x.sent, Sent(x.s.epoch, request), bytes);
      wire := wire + [bytes];
    }

    /** The client and its session stand where the exchange does. */
    ghost predicate InStep(session: Session, p: Params, x: Exchange, retransmits: nat)
      reads this, session
    {
      && session.Valid() && p.token == token && session.Abs() == x.s && retransmits == x.retransmits
      && x.s.reqSize == |p.body| && session.reqPayloadSize == |p.body|
    }

    /** One round of the request loop; `over` when the loop is left. */
    method RunRound(session: Session, p: Params, poll: Poll, count: nat, ghost x: Exchange, ghost before: seq<seq<byte>>)
      returns (over: bool, timedOut: bool, retransmits: nat, ghost y: Exchange)
      requires InStep(session, p, x, count) && x.phase == Running && AllPlausible(poll.batch)
      requires x.s.error == None && !x.s.needResend && !x.s.done && Went(wire, before, x.sent)
      modifies session, `wire
      ensures y == Round(p, x, poll) && session.Valid() && session.Abs() == y.s && Went(wire, before, y.sent)
      ensures over <==> y.phase != Running
      ensures timedOut <==> y.phase == TimedOut
      ensures !over ==> InStep(session, p, y, retransmits) && y.s.error == None && !y.s.needResend && !y.s.done
      ensures y.phase == Failed <==> session.error.Some?
      ensures y.phase == Finished ==> session.done
    {
      y, retransmits, timedOut := Round(p, x, poll), count, false;
      BatchKeepsInBody(x.s, poll.batch);
      session.ReceiveAll(poll.batch);
      if session.error.Some? { return true, false, retransmits, y; }
      if session.needResend {
        session.needResend := false;
        retransmits := 0;
        SendFrame(session, p, before, x.(s := session.Abs()));
        return session.done, false, retransmits, y;
      }
      if session.done { return true, false, retransmits, y; }
      if poll.expired {
        if retransmits >= MAX_RETRANSMIT { return true, true, retransmits, y; }
        retransmits := retransmits + 1;
        SendFrame(session, p, before, x.(s := session.Abs()));
      }
      over := false;
    }

    /** Issue one request and drive it to its end, or as far as the polls go. */
    method IssueRequest(method_: Method, uri: string, format: Option<u16>, accept: Option<u16>, body: seq<byte>,
                        polls: seq<Poll>)
      returns (r: Outcome, ghost x: Exchange)
      requires Valid() && |body| <= MAX_UPLOAD && forall k :: 0 <= k < |polls| ==> AllPlausible(polls[k].batch)
      modifies this
      ensures Valid() && token == (old(token) + 1) % 0x100
      ensures var p := Params(method_, token, uri, format, accept, body);
        x == Rounds(p, Begin(p, SzxForSize(blockSize).value, (old(msgId) + 1) % 0x1_0000), polls)
      ensures r == OutcomeOf(x) && Went(wire, old(wire), x.sent) && msgId == MsgId(x.s)
      ensures var p := Params(method_, token, uri, format, accept, body);
        var x0 := Begin(p, SzxForSize(blockSize).value, (old(msgId) + 1) % 0x1_0000);
        Reports(r, x, AnswerOf(p, x0, polls, None), PayloadOf(p, x0, polls), FaultOf(p, x0, polls))
    {
      hide Went, Rounds, FrameOf, RequestWire, AnswerOf, PayloadOf, FaultOf, Reports, OutcomeOf;
      token := (token + 1) % 0x100;
      msgId := (msgId + 1) % 0x1_0000;
      var szx := SzxForSize(blockSize).value;
      var p := Params(method_, token, uri, format, accept, body);
      var session := new Session(szx, msgId, |body|);
      x := SendFirst(session, p, szx);
      RunReports(p, szx, msgId, polls);
      r, x := Drive(session, p, polls, x, old(wire));
      msgId := session.msgId;
    }

    method SendFirst(session: Session, p: Params, szx: byte) returns (ghost x: Exchange)
      requires session.Valid() && session.Abs() == Start(szx, msgId, |p.body|) && p.token == token
      modifies `wire
      ensures x == Begin(p, szx, msgId) && InStep(session, p, x, 0) && Went(wire, old(wire), x.sent)
    {
      x := Exchange(session.Abs(), [], 0, Running);
      WentNone(wire);
      SendFrame(session, p, wire, x);
      x := Send(p, x);
    }

    /** The request loop. */
    method Drive(session: Session, p: Params, polls: seq<Poll>, ghost x0: Exchange, ghost before: seq<seq<byte>>)
      returns (r: Outcome, ghost x: Exchange)
      requires InStep(session, p, x0, 0) && x0.phase == Running && Went(wire, before, x0.sent)
      requires x0.s.error == None && !x0.s.needResend && !x0.s.done
      requires forall k :: 0 <= k < |polls| ==> AllPlausible(polls[k].batch)
      modifies session, `wire
      ensures x == Rounds(p, x0, polls) && r == OutcomeOf(x) && Went(wire, before, x.sent)
      ensures session.Valid() && session.Abs() == x.s
    {
      x := x0;
      var retransmits, i, over, timedOut := 0, 0, false, false;
      while !over && i < |polls|
        invariant 0 <= i <= |polls| && session.Valid() && session.Abs() == x.s && Went(wire, before, x.sent)
        invariant over <==> x.phase != Running
        invariant timedOut <==> x.phase == TimedOut
        invariant !over ==> InStep(session, p, x, retransmits) && x.s.error == None && !x.s.needResend && !x.s.done
        invariant x.phase == Failed <==> session.error.Some?
        invariant x.phase == Finished ==> session.done
        invariant Rounds(p, x0, polls) == Rounds(p, x, polls[i..])
      {
        assert polls[i..][0] == polls[i] && polls[i..][1..] == polls[i + 1..];
        over, timedOut, retransmits, x := RunRound(session, p, polls[i], retransmits, x, before);
        i := i + 1;
      }
      RoundsOver(p, x, polls[i..]);
      if timedOut { return Timeout, x; }
      if session.error.Some? { return Protocol(session.error.value), x; }
      if !over { return Waiting, x; }
      return Response(session.respCode / 32, session.respCode % 32, session.respContentFormat, session.respPayload), x;
    }
  }
}
