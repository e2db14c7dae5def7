// CoAP requests over MUP1 frames: what the client hands to the framing layer is what the device's parser reads.

module Stack {
  import opened Bytes
  import opened Checksum
  import opened Frame
  import opened FrameRoundTrip
  import opened FrameRun
  import opened FrameChunking
  import opened CoapMessage
  import opened CoapRequest
  import opened CoapTransfer

  const COAP_LOWER: byte := 0x63

  /** A request that one frame can carry and the receiver's parser can read. */
  predicate Deliverable(q: Request) {
    && Short(RequestOpts(q)) && Carries(q.block2) && (q.block1.Some? ==> Carries(q.block1.value))
    && |RequestWire(q)| <= MAX_DATA_SIZE
  }

  predicate AllDeliverable(reqs: seq<Request>) {
    forall i :: 0 <= i < |reqs| ==> Deliverable(reqs[i])
  }

  function FramesOf(reqs: seq<Request>): (r: seq<Frame>)
    requires AllDeliverable(reqs)
    ensures AllSendable(r) && |r| == |reqs| && forall i :: 0 <= i < |reqs| ==> r[i] == Frame(COAP_LOWER, RequestWire(reqs[i]))
  {
    seq(|reqs|, i requires 0 <= i < |reqs| => Frame(COAP_LOWER, RequestWire(reqs[i])))
  }

  /**
   * Any requests, sent one behind the other and received in pieces of any size, arrive as as many frames, in order, and
   * each parses to what was asked, as long as no tick gives an open frame up; meanwhile only the first of them have
   * arrived, and nothing else has.
   */
  lemma {:induction false} RequestsArrive(ct: ChecksumType, reqs: seq<Request>, events: seq<Event>, rest: seq<byte>)
    requires AllDeliverable(reqs) && PartOf(ct, FramesOf(reqs), events, rest) && QuietTicks(ct, events, |events|)
    ensures var c := RunCode(ct, events);
      var got := c.m.queued;
      && NothingRaw(c) && |got| <= |reqs| && (rest == [] ==> |got| == |reqs|)
      && forall i :: 0 <= i < |got| ==>
           got[i].typeByte == COAP_LOWER && ParseMessage(got[i].data) == Done(View(reqs[i]))
  {
    AnyChunking(ct, FramesOf(reqs), events, rest);
    var got := RunCode(ct, events).m.queued;
    forall i | 0 <= i < |got|
      ensures got[i].typeByte == COAP_LOWER && ParseMessage(got[i].data) == Done(View(reqs[i]))
    {
      assert got[i] == FramesOf(reqs)[i];
      ReadAsSent(reqs[i]);
    }
  }
}
