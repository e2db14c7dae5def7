// Blockwise transfer (RFC 7959) end to end: an exchange with a server that answers what it is asked, over a network
// that loses, repeats and reorders replies, uploads the body block by block and downloads the response exactly once.

module CoapTransfer {
  import opened Bytes
  import opened CoapMessage
  import opened CoapRequest
  import opened CoapSession

  // ---------------------------------------------------------------- the server and the network

  /** A request frame as its receiver parses it. */
  function View(f: Request): Parsed {
    Parsed(Con, MethodCode(f.method_), f.msgId, f.contentFormat, f.block1, Some(f.block2.(more := false)), f.payload)
  }

  function Upto(n: nat, limit: nat): nat {
    if n < limit then n else limit
  }

  /** 2.31 Continue with the size exponent echoed. */
  predicate ContinueFor(b: Block, m: Parsed) {
    && m.code == RESPONSE_CONTINUE && m.payload == []
    && m.block1.Some? && m.block1.value.szx == b.szx
    && (m.block2.Some? ==> !m.block2.value.more)
  }

  /** A block of `body` from the wanted offset on, at most as large as wanted; or all of it with no Block2 option. */
  predicate BlockFor(body: seq<byte>, want: Block, m: Parsed) {
    var off := want.num * Size(want.szx);
    && m.code != RESPONSE_CONTINUE && off <= |body|
    && match m.block2
       case None => off == 0 && m.payload == body
       case Some(b) =>
         && b.szx <= want.szx < 8 && b.num * Size(b.szx) == off
         && m.payload == body[off..Upto(off + Size(b.szx), |body|)]
         && (b.more <==> off + Size(b.szx) < |body|)
  }

  /** `m` acknowledges the request `q` as a server whose response is `body` does. */
  predicate Answers(body: seq<byte>, q: Parsed, m: Parsed) {
    && m.msgType == Ack && m.msgId == q.msgId
    && if q.block1.Some? && q.block1.value.more then ContinueFor(q.block1.value, m)
       else q.block2.Some? && BlockFor(body, q.block2.value, m)
  }

  /** Every message answers some frame sent before: replies may be lost, repeated and reordered, but not made up. */
  predicate Genuine(body: seq<byte>, sent: seq<Sent>, batch: seq<Parsed>) {
    forall j :: 0 <= j < |batch| ==> AnswersOne(body, sent, batch[j])
  }

  predicate AnswersOne(body: seq<byte>, sent: seq<Sent>, m: Parsed) {
    exists i :: 0 <= i < |sent| && Answers(body, View(sent[i].frame), m)
  }

  predicate GenuineRun(body: seq<byte>, p: Params, x: Exchange, polls: seq<Poll>)
    decreases |polls|
  {
    polls == []
    || (Genuine(body, x.sent, polls[0].batch) && GenuineRun(body, p, Round(p, x, polls[0]), polls[1..]))
  }

  // ---------------------------------------------------------------- progress of a download

  /** How much of the response has been received. */
  function Received(s: State): nat {
    s.block2Num * Size(s.block2Szx)
  }

  /** The response so far is the first `Received` bytes, and there is more to come. */
  predicate OnTrack(body: seq<byte>, s: State) {
    && s.block2Szx < 8 && s.block1Szx < 8
    && Received(s) <= |body| && (s.block2Num > 0 ==> Received(s) < |body|)
    && s.respPayload == body[..Received(s)]
    && (!s.cleared ==> s.block2Num == 0)
    && s.block2Num < 0x1_0000_0000
  }

  /** The response has been received completely. */
  predicate Complete(body: seq<byte>, s: State) {
    s.done && s.error == None && s.respPayload == body
  }

  /** Halving the block size any number of times keeps every offset a multiple of it. */
  lemma NextOffset(num: nat, size: nat, off: nat)
    requires num * size == off
    ensures (num + 1) * size == off + size
  {
  }

  /** An answer to the current frame moves the transfer on by one block, or completes it. */
  lemma AnswerAdvances(body: seq<byte>, p: Params, s: State, m: Parsed)
    requires OnTrack(body, s) && InBody(s) && s.reqSize == |p.body| <= MAX_UPLOAD && Plausible(m)
    requires !s.done && s.error == None && !s.needResend
    requires Answers(body, View(FrameOf(p, s)), m)
    ensures var t := Deliver(s, m);
      if t.epoch == s.epoch then Complete(body, t) && !t.needResend
      else t.epoch == s.epoch + 1 && t.needResend && !t.done && t.error == None && OnTrack(body, t)
  {
    var q := View(FrameOf(p, s));
    if q.block1.Some? && q.block1.value.more {
      ContinueAdvances(p, s, m);
      assert m.payload == [] && s.respPayload + [] == s.respPayload;
    } else {
      BlockAdvances(body, s, m);
    }
  }

  lemma ContinueAdvances(p: Params, s: State, m: Parsed)
    requires InBody(s) && s.reqSize == |p.body| <= MAX_UPLOAD && s.block1Szx < 8
    requires var b := FrameOf(p, s).block1; b.Some? && b.value.more && ContinueFor(b.value, m)
    ensures Offset(s) + Size(s.block1Szx) < s.reqSize && m.block1.value.szx == s.block1Szx && !s.cleared
    ensures (s.block1Num + 1) * Size(m.block1.value.szx) < s.reqSize
  {
    NextOffset(s.block1Num, Size(s.block1Szx), Offset(s));
  }

  lemma BlockAdvances(body: seq<byte>, s: State, m: Parsed)
    requires OnTrack(body, s) && Plausible(m) && BlockFor(body, Block(Low32(s.block2Num), false, s.block2Szx), m)
    ensures var t := Process(s, m);
      if m.block2.Some? && m.block2.value.more then OnTrack(body, t)
      else t.respPayload == body && t.done && t.error == s.error && t.epoch == s.epoch && t.needResend == s.needResend
  {
    hide ContinueOn;
    var off := Received(s);
    match m.block2
    case None => assert body[..0] + body == body;
    case Some(b) =>
      var end := Upto(off + Size(b.szx), |body|);
      assert body[..off] + body[off..end] == body[..end];
      NextOffset(b.num, Size(b.szx), off);
      if !b.more { assert body[..end] == body; }
  }

  // ---------------------------------------------------------------- one batch

  /** A genuine message with the current id answers the current frame. */
  lemma CurrentAnswer(body: seq<byte>, p: Params, x: Exchange, m: Parsed)
    requires Disciplined(p, x) && x.phase == Running && x.s.epoch < 0x1_0000
    requires AnswersOne(body, x.sent, m)
    ensures m.msgId == MsgId(x.s) ==> Answers(body, View(FrameOf(p, x.s)), m)
    ensures m.msgType == Ack && IdUpTo(x.s.firstId, x.s.epoch, m.msgId)
  {
    var i :| 0 <= i < |x.sent| && Answers(body, View(x.sent[i].frame), m);
    var e := x.sent[i].epoch;
    assert m.msgId == IdAt(x.s.firstId, e) && e <= x.s.epoch;
    if m.msgId == MsgId(x.s) {
      DistinctIds(x.s.firstId, e, x.s.epoch);
      assert x.sent[i].frame == x.sent[|x.sent| - 1].frame;
    }
  }

  /** Every message carries an id of some epoch up to `top`. */
  predicate IdsUpTo(first: u16, top: nat, batch: seq<Parsed>) {
    forall j :: 0 <= j < |batch| ==> batch[j].msgType == Ack && IdUpTo(first, top, batch[j].msgId)
  }

  predicate IdUpTo(first: u16, top: nat, id: u16) {
    exists e :: 0 <= e <= top && id == IdAt(first, e)
  }

  /** Once the message id has moved on, nothing that answers an older frame has any effect. */
  lemma {:induction false} StaleIsIgnored(s: State, batch: seq<Parsed>)
    requires 0 < s.epoch < 0x1_0000 && IdsUpTo(s.firstId, s.epoch - 1, batch)
    ensures Fold(Deliver, s, batch) == s
    decreases |batch|
  {
    if batch != [] {
      assert IdUpTo(s.firstId, s.epoch - 1, batch[0].msgId);
      var e :| 0 <= e <= s.epoch - 1 && batch[0].msgId == IdAt(s.firstId, e);
      if batch[0].msgId == MsgId(s) { DistinctIds(s.firstId, e, s.epoch); }
      forall j | 0 <= j < |batch| - 1 ensures batch[1..][j].msgType == Ack && IdUpTo(s.firstId, s.epoch - 1, batch[1..][j].msgId) {
        assert batch[1..][j] == batch[j + 1];
      }
      StaleIsIgnored(s, batch[1..]);
    }
  }

  /** How many messages of a batch carry an id. */
  function Copies(batch: seq<Parsed>, id: u16): nat {
    if batch == [] then 0 else (if batch[0].msgId == id then 1 else 0) + Copies(batch[1..], id)
  }

  /** The messages of a batch that carry the id `id` all answer one wish for a block. */
  predicate Repeats(body: seq<byte>, want: Block, id: u16, batch: seq<Parsed>) {
    forall j :: 0 <= j < |batch| && batch[j].msgId == id ==> BlockFor(body, want, batch[j])
  }

  lemma Rest(body: seq<byte>, want: Block, id: u16, first: u16, top: nat, batch: seq<Parsed>)
    requires batch != [] && Repeats(body, want, id, batch) && IdsUpTo(first, top, batch)
    ensures Repeats(body, want, id, batch[1..]) && IdsUpTo(first, top, batch[1..])
  {
    forall j | 0 <= j < |batch| - 1
      ensures batch[1..][j].msgId == id ==> BlockFor(body, want, batch[1..][j])
      ensures batch[1..][j].msgType == Ack && IdUpTo(first, top, batch[1..][j].msgId)
    {
      assert batch[1..][j] == batch[j + 1];
    }
  }

  lemma BlockPayload(body: seq<byte>, want: Block, off: nat, m: Parsed)
    requires BlockFor(body, want, m) && off == want.num * Size(want.szx)
    ensures off < |body| ==> m.payload != []
    ensures body == [] ==> m.payload == [] && (m.block2.Some? ==> !m.block2.value.more)
  {
    if m.block2.Some? { SizeAtLeast16(m.block2.value.szx); }
  }

  /** A copy of the final reply either leaves the exchange complete or moves the id on; it never fails it. */
  lemma CopyDelivered(s: State, m: Parsed)
    requires s.done && s.error == None && m.msgType == Ack && m.msgId == MsgId(s) && m.code != RESPONSE_CONTINUE
    ensures var t := Deliver(s, m);
      && t.done && t.error == None && t.firstId == s.firstId && t.respPayload == s.respPayload + m.payload
      && (t.epoch == s.epoch || t.epoch == s.epoch + 1)
      && (m.block2.Some? && m.block2.value.more <==> t.epoch != s.epoch)
  {
  }

  lemma {:induction false} ResponseGrows(body: seq<byte>, want: Block, s: State, batch: seq<Parsed>)
    requires s.done && s.error == None && s.epoch + 1 < 0x1_0000
    requires Repeats(body, want, MsgId(s), batch) && IdsUpTo(s.firstId, s.epoch, batch)
    ensures var t := Fold(Deliver, s, batch);
      t.done && t.error == None && |s.respPayload| <= |t.respPayload| && t.epoch <= s.epoch + 1
    decreases |batch|
  {
    if batch != [] {
      Rest(body, want, MsgId(s), s.firstId, s.epoch, batch);
      if batch[0].msgId == MsgId(s) {
        CopyDelivered(s, batch[0]);
      }
      var t := Deliver(s, batch[0]);
      if t.epoch == s.epoch {
        ResponseGrows(body, want, t, batch[1..]);
      } else {
        StaleIsIgnored(t, batch[1..]);
      }
    }
  }

  /**
   * After completion, within the same batch: a further copy of the final reply is appended to the response, so the
   * response stays right exactly when there is no further copy, or nothing to append.
   */
  lemma {:induction false} AfterCompletion(body: seq<byte>, want: Block, s: State, batch: seq<Parsed>)
    requires Complete(body, s) && s.epoch + 1 < 0x1_0000
    requires Repeats(body, want, MsgId(s), batch) && IdsUpTo(s.firstId, s.epoch, batch)
    requires want.num * Size(want.szx) < |body| || body == []
    ensures var t := Fold(Deliver, s, batch);
      && t.done && t.error == None && t.epoch <= s.epoch + 1
      && (t.respPayload == body <==> body == [] || Copies(batch, MsgId(s)) == 0)
    decreases |batch|
  {
    hide IdUpTo, Size;
    if batch != [] {
      Rest(body, want, MsgId(s), s.firstId, s.epoch, batch);
      if batch[0].msgId != MsgId(s) {
        AfterCompletion(body, want, s, batch[1..]);
      } else {
        CopyDelivered(s, batch[0]);
        BlockPayload(body, want, want.num * Size(want.szx), batch[0]);
        var t := Deliver(s, batch[0]);
        if body == [] {
          AfterCompletion(body, want, t, batch[1..]);
        } else if t.epoch == s.epoch {
          ResponseGrows(body, want, t, batch[1..]);
        } else {
          StaleIsIgnored(t, batch[1..]);
        }
      }
    }
  }

  // ---------------------------------------------------------------- one round

  /** Between polls: the loop runs on, the response is on track and the upload inside the body. */
  ghost predicate Healthy(body: seq<byte>, p: Params, x: Exchange) {
    Disciplined(p, x) && x.phase == Running && OnTrack(body, x.s) && |p.body| <= MAX_UPLOAD
  }

  /** Some frame went out under every epoch so far. */
  predicate NoneSkipped(x: Exchange) {
    forall e :: 0 <= e <= x.s.epoch ==> CountOf(x.sent, e) >= 1
  }

  lemma SendSkipsNone(x: Exchange, y: Exchange, f: Sent)
    requires NoneSkipped(x) && x.s.epoch <= y.s.epoch <= x.s.epoch + 1 && y.sent == x.sent + [f] && f.epoch == y.s.epoch
    ensures NoneSkipped(y)
  {
    CountSnoc(x.sent, f);
    forall e | 0 <= e <= y.s.epoch ensures CountOf(y.sent, e) >= 1 {
      if e <= x.s.epoch { assert CountOf(x.sent, e) >= 1; }
    }
  }

  /** The messages of a genuine batch, seen from the current state. */
  lemma GenuineBatch(body: seq<byte>, p: Params, x: Exchange, batch: seq<Parsed>)
    requires Healthy(body, p, x) && x.s.epoch < 0x1_0000 && Genuine(body, x.sent, batch)
    ensures IdsUpTo(x.s.firstId, x.s.epoch, batch)
    ensures forall j :: 0 <= j < |batch| && batch[j].msgId == MsgId(x.s) ==>
      Answers(body, View(FrameOf(p, x.s)), batch[j])
  {
    forall j | 0 <= j < |batch|
      ensures batch[j].msgType == Ack && IdUpTo(x.s.firstId, x.s.epoch, batch[j].msgId)
      ensures batch[j].msgId == MsgId(x.s) ==> Answers(body, View(FrameOf(p, x.s)), batch[j])
    {
      CurrentAnswer(body, p, x, batch[j]);
    }
  }

  /** How a genuine batch can leave the session. */
  ghost predicate BatchOutcome(body: seq<byte>, s: State, t: State, copies: nat) {
    || t == s
    || (t.epoch == s.epoch + 1 && t.needResend && !t.done && t.error == None && OnTrack(body, t))
    || (t.done && t.error == None && t.epoch <= s.epoch + 1 && (t.respPayload == body <==> body == [] || copies == 1))
  }

  lemma {:induction false} BatchAdvances(body: seq<byte>, p: Params, s: State, batch: seq<Parsed>)
    requires OnTrack(body, s) && InBody(s) && s.reqSize == |p.body| <= MAX_UPLOAD && s.epoch + 1 < 0x1_0000
    requires !s.done && s.error == None && !s.needResend && AllPlausible(batch)
    requires IdsUpTo(s.firstId, s.epoch, batch)
    requires forall j :: 0 <= j < |batch| && batch[j].msgId == MsgId(s) ==>
      Answers(body, View(FrameOf(p, s)), batch[j])
    ensures BatchOutcome(body, s, Fold(Deliver, s, batch), Copies(batch, MsgId(s)))
    decreases |batch|
  {
    if batch != [] {
      var m, rest := batch[0], batch[1..];
      assert forall j :: 0 <= j < |rest| ==> rest[j] == batch[j + 1];
      assert IdsUpTo(s.firstId, s.epoch, rest) by {
        forall j | 0 <= j < |rest| ensures rest[j].msgType == Ack && IdUpTo(s.firstId, s.epoch, rest[j].msgId) {
          assert rest[j] == batch[j + 1];
        }
      }
      if m.msgId != MsgId(s) {
        BatchAdvances(body, p, s, rest);
      } else {
        AnswerAdvances(body, p, s, m);
        var t := Deliver(s, m);
        if t.epoch != s.epoch {
          StaleIsIgnored(t, rest);
        } else {
          FinalFrame(body, p, s, m);
          WantInBody(body, p, s);
          var want := FrameOf(p, s).block2;
          AfterCompletion(body, want, t, rest);
        }
      }
    }
  }

  lemma ContinueMoves(s: State, m: Parsed)
    requires m.code == RESPONSE_CONTINUE && m.block1.Some? && (m.block2.Some? ==> !m.block2.value.more)
    requires (s.block1Num + 1) * Size(m.block1.value.szx) < s.reqSize
    ensures Process(s, m).epoch == s.epoch + 1
  {
  }

  /** Only a frame that ends the upload can be answered with the end of the response. */
  lemma FinalFrame(body: seq<byte>, p: Params, s: State, m: Parsed)
    requires InBody(s) && s.reqSize == |p.body| <= MAX_UPLOAD && s.block1Szx < 8
    requires Answers(body, View(FrameOf(p, s)), m) && Process(s, m).epoch == s.epoch
    ensures var q := View(FrameOf(p, s)); !(q.block1.Some? && q.block1.value.more)
  {
    var b := FrameOf(p, s).block1;
    if b.Some? && b.value.more {
      ContinueAdvances(p, s, m);
      ContinueMoves(s, m);
      assert false;
    }
  }

  lemma WantInBody(body: seq<byte>, p: Params, s: State)
    requires OnTrack(body, s)
    ensures var want := FrameOf(p, s).block2; want.num * Size(want.szx) < |body| || body == []
  {
    assert Low32(s.block2Num) == s.block2Num;
  }

  /**
   * A round with genuine replies never fails the exchange. While it runs on, the response stays on track; when it
   * finishes, the response is the server's exactly when the batch held one copy of the final reply (or the response
   * is empty).
   */
  lemma RoundAdvances(body: seq<byte>, p: Params, x: Exchange, poll: Poll)
    requires Healthy(body, p, x) && Genuine(body, x.sent, poll.batch) && AllPlausible(poll.batch)
    requires x.s.epoch + 1 < 0x1_0000
    ensures var y := Round(p, x, poll);
      && y.phase != Failed
      && (y.phase == Running ==> Healthy(body, p, y))
      && (y.phase == Finished ==> (y.s.respPayload == body <==> body == [] || Copies(poll.batch, MsgId(x.s)) == 1))
      && (NoneSkipped(x) ==> NoneSkipped(y))
  {
    RoundKeepsDiscipline(p, x, poll);
    GenuineBatch(body, p, x, poll.batch);
    BatchAdvances(body, p, x.s, poll.batch);
    BatchMoves(x.s, poll.batch);
    var y := Round(p, x, poll);
    if NoneSkipped(x) && |y.sent| > |x.sent| { SendSkipsNone(x, y, y.sent[|x.sent|]); }
  }

  predicate PlausibleRun(polls: seq<Poll>) {
    forall k :: 0 <= k < |polls| ==> AllPlausible(polls[k].batch)
  }

  lemma {:induction false} TransferStaysHealthy(body: seq<byte>, p: Params, x: Exchange, polls: seq<Poll>)
    requires Healthy(body, p, x) && NoneSkipped(x) && GenuineRun(body, p, x, polls) && PlausibleRun(polls)
    requires Rounds(p, x, polls).phase == Running && Rounds(p, x, polls).s.epoch + 1 < 0x1_0000
    ensures Healthy(body, p, Rounds(p, x, polls)) && NoneSkipped(Rounds(p, x, polls))
    decreases |polls|
  {
    if polls != [] {
      var y := Round(p, x, polls[0]);
      RoundsOver(p, x, polls);
      RoundsOver(p, y, polls[1..]);
      RoundAdvances(body, p, x, polls[0]);
      assert forall k :: 0 <= k < |polls[1..]| ==> polls[1..][k] == polls[k + 1];
      TransferStaysHealthy(body, p, y, polls[1..]);
    }
  }

  /**
   * Exactly-once transfer. For any response, any run of rounds whose replies are genuine and fewer than 65536 message
   * ids: while the loop runs, the response is the first `Received` bytes of the server's; no epoch, and so no block of
   * the body, is skipped; the exchange never fails; and when it finishes, the result is the server's response exactly
   * when the last batch held a single copy of the final reply, or the response is empty.
   */
  lemma ExactlyOnceTransfer(body: seq<byte>, p: Params, szx: byte, id: u16, polls: seq<Poll>, last: Poll)
    requires szx < 8 && |p.body| <= MAX_UPLOAD
    requires GenuineRun(body, p, Begin(p, szx, id), polls) && PlausibleRun(polls)
    requires var x := Rounds(p, Begin(p, szx, id), polls);
      && x.phase == Running && x.s.epoch + 1 < 0x1_0000
      && Genuine(body, x.sent, last.batch) && AllPlausible(last.batch)
    ensures var x := Rounds(p, Begin(p, szx, id), polls);
      var y := Round(p, x, last);
      && x.s.respPayload == body[..Upto(Received(x.s), |body|)] && Received(x.s) <= |body|
      && NoneSkipped(y) && y.phase != Failed
      && (y.phase == Finished ==> (y.s.respPayload == body <==> body == [] || Copies(last.batch, MsgId(x.s)) == 1))
  {
    var x0 := Begin(p, szx, id);
    BeginsHealthy(body, p, szx, id);
    TransferStaysHealthy(body, p, x0, polls);
    RoundAdvances(body, p, Rounds(p, x0, polls), last);
  }

  lemma BeginsHealthy(body: seq<byte>, p: Params, szx: byte, id: u16)
    requires szx < 8 && |p.body| <= MAX_UPLOAD
    ensures Healthy(body, p, Begin(p, szx, id)) && NoneSkipped(Begin(p, szx, id))
  {
    var x := Begin(p, szx, id);
    assert x.sent == [] + [Sent(0, FrameOf(p, x.s))];
    CountSnoc([], Sent(0, FrameOf(p, x.s)));
    ExchangeIsDisciplined(p, szx, id, []);
    assert x.s.respPayload == body[..0];
  }

  /** Two copies of the final reply in one batch: the response [7] is delivered as [7, 7]. */
  lemma DuplicateInOneBatch(p: Params, id: u16)
    requires p.body == []
    ensures var x := Begin(p, 4, id);
      var m := Parsed(Ack, 2 * 32 + 5, id, None, None, None, [7]);
      && Genuine([7], x.sent, [m, m])
      && Round(p, x, Poll([m, m], false)).phase == Finished
      && Round(p, x, Poll([m, m], false)).s.respPayload == [7, 7]
  {
    var x := Begin(p, 4, id);
    var m := Parsed(Ack, 2 * 32 + 5, id, None, None, None, [7]);
    assert x.sent[0].frame == FrameOf(p, x.s);
    assert Answers([7], View(x.sent[0].frame), m);
    var s1 := Deliver(x.s, m);
    assert s1.respPayload == [7];
    assert [m, m][1..] == [m];
    FoldOne(Deliver, s1, m);
    assert Fold(Deliver, x.s, [m, m]) == Deliver(s1, m);
  }

  // ---------------------------------------------------------------- what an upload sends

  /** Block `n` of a body cut into blocks of `size` bytes. */
  function BodyBlock(body: seq<byte>, size: nat, n: nat): seq<byte> {
    body[Upto(n * size, |body|)..Upto((n + 1) * size, |body|)]
  }

  /** The concatenation of the first `k` blocks. */
  function BodyBlocks(body: seq<byte>, size: nat, k: nat): seq<byte> {
    if k == 0 then [] else BodyBlocks(body, size, k - 1) + BodyBlock(body, size, k - 1)
  }

  /** The blocks concatenate to a prefix of the body, and to all of it from the block that completes it. */
  lemma {:induction false} BlocksArePrefix(body: seq<byte>, size: nat, k: nat)
    ensures BodyBlocks(body, size, k) == body[..Upto(k * size, |body|)]
    ensures k * size >= |body| ==> BodyBlocks(body, size, k) == body
  {
    if k > 0 {
      BlocksArePrefix(body, size, k - 1);
      NextOffset(k - 1, size, (k - 1) * size);
      var a, b := Upto((k - 1) * size, |body|), Upto(k * size, |body|);
      assert body[..a] + body[a..b] == body[..b];
    } else {
      assert 0 * size == 0;
    }
    if k * size >= |body| { assert body[..|body|] == body; }
  }

  /** A frame of epoch `n` either carries nothing of the body or is block `n` of it. */
  predicate IsBlock(body: seq<byte>, szx: byte, n: nat, f: Request) {
    || (f.payload == [] && f.block1 == None)
    || (&& f.payload == BodyBlock(body, Size(szx), n)
        && match f.block1
           case None => n == 0 && f.payload == body
           case Some(b) => b.num == n && b.szx == szx && (b.more <==> (n + 1) * Size(szx) < |body|))
  }

  /** Every 2.31 Continue echoes the size exponent. */
  predicate Echoes(szx: byte, batch: seq<Parsed>) {
    forall j :: 0 <= j < |batch| && batch[j].code == RESPONSE_CONTINUE && batch[j].block1.Some? ==>
      batch[j].block1.value.szx == szx
  }

  predicate EchoRun(szx: byte, polls: seq<Poll>) {
    forall k :: 0 <= k < |polls| ==> Echoes(szx, polls[k].batch)
  }

  predicate UploadState(szx: byte, s: State) {
    s.block1Szx == szx && (!s.cleared ==> s.epoch == s.block1Num)
  }

  predicate AllBlocks(body: seq<byte>, szx: byte, sent: seq<Sent>) {
    forall i :: 0 <= i < |sent| ==> IsBlock(body, szx, sent[i].epoch, sent[i].frame)
  }

  lemma AllBlocksSnoc(body: seq<byte>, szx: byte, sent: seq<Sent>, f: Sent)
    requires AllBlocks(body, szx, sent) && IsBlock(body, szx, f.epoch, f.frame)
    ensures AllBlocks(body, szx, sent + [f])
  {
  }

  ghost predicate Uploading(p: Params, szx: byte, x: Exchange) {
    Disciplined(p, x) && UploadState(szx, x.s) && AllBlocks(p.body, szx, x.sent)
  }

  lemma {:induction false} BatchKeepsUpload(szx: byte, s: State, batch: seq<Parsed>)
    requires UploadState(szx, s) && Echoes(szx, batch)
    ensures UploadState(szx, Fold(Deliver, s, batch))
    decreases |batch|
  {
    if batch != [] {
      assert forall j :: 0 <= j < |batch[1..]| ==> batch[1..][j] == batch[j + 1];
      BatchKeepsUpload(szx, Deliver(s, batch[0]), batch[1..]);
    }
  }

  lemma FrameIsBlock(p: Params, szx: byte, s: State)
    requires InBody(s) && s.reqSize == |p.body| <= MAX_UPLOAD && UploadState(szx, s)
    ensures IsBlock(p.body, szx, s.epoch, FrameOf(p, s))
  {
    if !s.cleared && p.body != [] {
      ChunkInBody(p.body, s);
      NextOffset(s.block1Num, Size(szx), Offset(s));
    }
  }

  lemma RoundKeepsUpload(p: Params, szx: byte, x: Exchange, poll: Poll)
    requires Uploading(p, szx, x) && |p.body| <= MAX_UPLOAD && Echoes(szx, poll.batch)
    ensures Uploading(p, szx, Round(p, x, poll))
  {
    hide FrameOf, AllBlocks, Deliver;
    RoundKeepsDiscipline(p, x, poll);
    if x.phase == Running {
      var s := Fold(Deliver, x.s, poll.batch);
      BatchKeepsUpload(szx, x.s, poll.batch);
      BatchKeepsInBody(x.s, poll.batch);
      var t := s.(needResend := false);
      SendKeepsBlocks(p, szx, x.sent, s);
      SendKeepsBlocks(p, szx, x.sent, t);
    }
  }

  lemma SendKeepsBlocks(p: Params, szx: byte, sent: seq<Sent>, s: State)
    requires InBody(s) && s.reqSize == |p.body| <= MAX_UPLOAD && UploadState(szx, s) && AllBlocks(p.body, szx, sent)
    ensures AllBlocks(p.body, szx, sent + [Sent(s.epoch, FrameOf(p, s))])
  {
    FrameIsBlock(p, szx, s);
    AllBlocksSnoc(p.body, szx, sent, Sent(s.epoch, FrameOf(p, s)));
  }

  /**
   * Faithful upload: whatever else the device sends, as long as each 2.31 Continue echoes the size exponent, every
   * frame of epoch `n` that carries part of the body is block `n` of it, marked as the last exactly when it is.
   */
  lemma {:induction false} UploadIsFaithful(p: Params, szx: byte, id: u16, polls: seq<Poll>)
    requires szx < 8 && |p.body| <= MAX_UPLOAD && EchoRun(szx, polls)
    ensures var x := Rounds(p, Begin(p, szx, id), polls);
      AllBlocks(p.body, szx, x.sent)
  {
    ExchangeIsDisciplined(p, szx, id, []);
    SendKeepsBlocks(p, szx, [], Start(szx, id, |p.body|));
    RoundsKeepUpload(p, szx, Begin(p, szx, id), polls);
  }

  lemma {:induction false} RoundsKeepUpload(p: Params, szx: byte, x: Exchange, polls: seq<Poll>)
    requires Uploading(p, szx, x) && |p.body| <= MAX_UPLOAD && EchoRun(szx, polls)
    ensures Uploading(p, szx, Rounds(p, x, polls))
    decreases |polls|
  {
    if polls != [] {
      RoundKeepsUpload(p, szx, x, polls[0]);
      assert forall k :: 0 <= k < |polls[1..]| ==> polls[1..][k] == polls[k + 1];
      RoundsKeepUpload(p, szx, Round(p, x, polls[0]), polls[1..]);
    }
  }

  /** A frame carries block `n` of the body, with a Block1 option unless that is all of it. */
  predicate CarriesBlock(body: seq<byte>, szx: byte, n: nat, f: Request) {
    && f.payload == BodyBlock(body, Size(szx), n)
    && f.block1 == if |body| <= Size(szx) then None else Some(Block(Low32(n), (n + 1) * Size(szx) < |body|, szx))
  }

  predicate CarriesNothing(f: Request) {
    f.payload == [] && f.block1 == None
  }

  /** Frames carry their blocks up to the epoch `cut`, and nothing from there on. */
  predicate CarryUpTo(body: seq<byte>, szx: byte, sent: seq<Sent>, cut: nat) {
    forall i :: 0 <= i < |sent| ==>
      if sent[i].epoch < cut then CarriesBlock(body, szx, sent[i].epoch, sent[i].frame) else CarriesNothing(sent[i].frame)
  }

  /** The whole body is on its way as long as the request payload has not been cleared. */
  predicate CutFits(s: State, cut: nat) {
    if s.cleared then 0 < cut <= s.epoch else cut > s.epoch
  }

  lemma FrameCarriesBlock(p: Params, szx: byte, s: State)
    requires InBody(s) && s.reqSize == |p.body| <= MAX_UPLOAD && UploadState(szx, s)
    ensures if s.cleared then CarriesNothing(FrameOf(p, s)) else CarriesBlock(p.body, szx, s.epoch, FrameOf(p, s))
  {
    SizeAtLeast16(szx);
    if !s.cleared && p.body != [] {
      ChunkInBody(p.body, s);
      NextOffset(s.block1Num, Size(szx), Offset(s));
      if s.block1Num > 0 { MulMonotone(Size(szx), 1, s.block1Num); }
    }
  }

  /** Everything up to `top` is on the same side of both cuts. */
  predicate SameSide(top: nat, cut: nat, next: nat) {
    next == cut || (top < cut && top < next)
  }

  /** The new cut after a batch: the frames already out are on the same side of it as before. */
  lemma {:induction false} BatchCuts(s: State, batch: seq<Parsed>, cut: nat) returns (next: nat)
    requires CutFits(s, cut)
    ensures CutFits(Fold(Deliver, s, batch), next) && s.epoch <= Fold(Deliver, s, batch).epoch
    ensures SameSide(s.epoch, cut, next)
    decreases |batch|
  {
    if batch == [] { return cut; }
    var t := Deliver(s, batch[0]);
    var mid := if s.cleared then cut else t.epoch + if t.cleared then 0 else 1;
    next := BatchCuts(t, batch[1..], mid);
  }

  lemma SentCarried(p: Params, szx: byte, x: Exchange, t: State, cut: nat, next: nat)
    requires Disciplined(p, x) && CarryUpTo(p.body, szx, x.sent, cut)
    requires SameSide(x.s.epoch, cut, next)
    requires InBody(t) && t.reqSize == |p.body| <= MAX_UPLOAD && UploadState(szx, t) && CutFits(t, next)
    ensures CarryUpTo(p.body, szx, x.sent, next) && CarryUpTo(p.body, szx, x.sent + [Sent(t.epoch, FrameOf(p, t))], next)
  {
    hide CarriesBlock, CarriesNothing, FrameOf;
    FrameCarriesBlock(p, szx, t);
  }

  lemma RoundCuts(p: Params, szx: byte, x: Exchange, poll: Poll, cut: nat) returns (next: nat)
    requires Uploading(p, szx, x) && |p.body| <= MAX_UPLOAD && Echoes(szx, poll.batch)
    requires CutFits(x.s, cut) && CarryUpTo(p.body, szx, x.sent, cut)
    ensures CutFits(Round(p, x, poll).s, next) && CarryUpTo(p.body, szx, Round(p, x, poll).sent, next)
  {
    hide CarryUpTo, FrameOf, Deliver;
    if x.phase != Running { return cut; }
    var s := Fold(Deliver, x.s, poll.batch);
    next := BatchCuts(x.s, poll.batch, cut);
    BatchKeepsUpload(szx, x.s, poll.batch);
    BatchKeepsInBody(x.s, poll.batch);
    SentCarried(p, szx, x, s, cut, next);
    SentCarried(p, szx, x, s.(needResend := false), cut, next);
  }

  lemma {:induction false} RoundsCut(p: Params, szx: byte, x: Exchange, polls: seq<Poll>, cut: nat) returns (next: nat)
    requires Uploading(p, szx, x) && |p.body| <= MAX_UPLOAD && EchoRun(szx, polls)
    requires CutFits(x.s, cut) && CarryUpTo(p.body, szx, x.sent, cut)
    ensures CutFits(Rounds(p, x, polls).s, next) && CarryUpTo(p.body, szx, Rounds(p, x, polls).sent, next)
    decreases |polls|
  {
    hide CarryUpTo, Round, Uploading, Echoes;
    if polls == [] { return cut; }
    assert Echoes(szx, polls[0].batch);
    RoundKeepsUpload(p, szx, x, polls[0]);
    var mid := RoundCuts(p, szx, x, polls[0], cut);
    next := RoundsCut(p, szx, Round(p, x, polls[0]), polls[1..], mid);
  }

  /**
   * Under the same condition there is an epoch, never the first and not yet reached unless the rest of the response is being
   * fetched, before which every frame carries exactly its block of the body and from which on no frame carries any of it.
   */
  lemma UploadIsCarried(p: Params, szx: byte, id: u16, polls: seq<Poll>)
    requires szx < 8 && |p.body| <= MAX_UPLOAD && EchoRun(szx, polls)
    ensures var x := Rounds(p, Begin(p, szx, id), polls);
      exists cut: nat :: cut > 0 && (!x.s.cleared ==> cut > x.s.epoch) && CarryUpTo(p.body, szx, x.sent, cut)
  {
    hide CarryUpTo, Rounds, FrameOf;
    ExchangeIsDisciplined(p, szx, id, []);
    BeginUploads(p, szx, id);
    var cut := RoundsCut(p, szx, Begin(p, szx, id), polls, 1);
  }

  lemma BeginUploads(p: Params, szx: byte, id: u16)
    requires szx < 8 && |p.body| <= MAX_UPLOAD
    ensures Uploading(p, szx, Begin(p, szx, id)) && CarryUpTo(p.body, szx, Begin(p, szx, id).sent, 1)
    ensures CutFits(Begin(p, szx, id).s, 1)
  {
    hide FrameOf, IsBlock, CarriesBlock;
    var s := Start(szx, id, |p.body|);
    ExchangeIsDisciplined(p, szx, id, []);
    SendKeepsBlocks(p, szx, [], s);
    FrameCarriesBlock(p, szx, s);
    assert [] + [Sent(0, FrameOf(p, s))] == [Sent(0, FrameOf(p, s))];
  }

  /** The receiver of a frame parses what the exchange meant to send. */
  lemma FrameIsReadAsSent(body: seq<byte>, p: Params, s: State)
    requires OnTrack(body, s) && InBody(s) && s.reqSize == |p.body| <= MAX_UPLOAD && |body| <= MAX_UPLOAD
    requires Short(RequestOpts(FrameOf(p, s)))
    ensures ParseMessage(RequestWire(FrameOf(p, s))) == Done(View(FrameOf(p, s)))
  {
    SizeAtLeast16(s.block2Szx);
    MulMonotone(s.block2Num, 16, Size(s.block2Szx));
    FrameCarries(p, s);
    ReadAsSent(FrameOf(p, s));
  }

  lemma FrameCarries(p: Params, s: State)
    requires InBody(s) && s.reqSize == |p.body| <= MAX_UPLOAD && s.block1Szx < 8 && s.block2Szx < 8
    requires s.block2Num < 0x1000_0000
    ensures var f := FrameOf(p, s); Carries(f.block2) && (f.block1.Some? ==> Carries(f.block1.value))
  {
    BlockNumBounded(s);
  }

  lemma ReadAsSent(f: Request)
    requires Short(RequestOpts(f)) && Carries(f.block2) && (f.block1.Some? ==> Carries(f.block1.value))
    ensures ParseMessage(RequestWire(f)) == Done(View(f))
  {
    RequestRoundTrip(f);
  }
}
