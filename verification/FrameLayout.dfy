// MUP1 on the wire, byte by byte: what an encoded frame looks like, and what the decoder makes of frames with a right or a
// wrong checksum, of noise, of trailers, of broken-off attempts and of a full buffer. Bytes are given as numbers here.

module FrameLayout {
  import opened Bytes
  import opened Checksum
  import opened ChecksumLayout
  import opened Frame
  import opened FrameParser
  import opened FrameRoundTrip

  // ---------------------------------------------------------------- what the encoder writes

  /** Five bytes are written behind an escape; 0x00 and 0xFF as the letters `0` and `F`. */
  function OnTheWire(b: byte): seq<byte> {
    if b == 0x3E || b == 0x3C || b == 0x5C then [0x5C, b]
    else if b == 0x00 then [0x5C, 0x30]
    else if b == 0xFF then [0x5C, 0x46]
    else [b]
  }

  function PayloadOnTheWire(data: seq<byte>): seq<byte> {
    if data == [] then [] else OnTheWire(data[0]) + PayloadOnTheWire(data[1..])
  }

  lemma {:induction false} PayloadAppend(data: seq<byte>, b: byte)
    ensures PayloadOnTheWire(data + [b]) == PayloadOnTheWire(data) + OnTheWire(b)
    decreases |data|
  {
    if data == [] {
      assert [b][1..] == [] && [] + [b] == [b];
    } else {
      PayloadAppend(data[1..], b);
      assert (data + [b])[1..] == data[1..] + [b];
    }
  }

  lemma {:induction false} EscapedPayload(data: seq<byte>)
    ensures Escape(data) == PayloadOnTheWire(data)
  {
    if data != [] {
      var n := |data| - 1;
      EscapedPayload(data[..n]);
      PayloadAppend(data[..n], data[n]);
      assert data[..n] + [data[n]] == data;
    }
  }

  /** One EOF ends the payload, and a second one if the checksum sums words and the payload is even. */
  function Ends(ct: ChecksumType, dataLen: nat): seq<byte> {
    if ct == Internet && dataLen % 2 == 0 then [0x3C, 0x3C] else [0x3C]
  }

  /** The bytes that a checksum is taken of: nothing is escaped in them. */
  function Summed(ct: ChecksumType, ty: byte, data: seq<byte>): seq<byte> {
    [0x3E, ty] + data + Ends(ct, |data|)
  }

  /** What a receiver demands of the four hexadecimal digits. */
  predicate Verifies(summed: seq<byte>, sum: seq<byte>) {
    && |sum| == 4 && ReadHex(sum).Some?
    && (WordSum(summed) + ReadHex(sum).value) % 0xFFFF == 0
    && (ReadHex(sum).value == 0xFFFF <==> WordSum(summed) == 0)
  }

  lemma SummedIs(ct: ChecksumType, ty: byte, data: seq<byte>)
    ensures Logical(ct, ty, data) == Summed(ct, ty, data) && Eofs(ct, |data|) == Ends(ct, |data|)
  {
  }

  lemma WireSumIs(ct: ChecksumType, summed: seq<byte>)
    requires Feedable(ct, |summed|)
    ensures ct == Internet ==> Verifies(summed, WireForm(ct, summed))
    ensures ct == Crc32Type ==> WireForm(ct, summed) == FiveSymbols(Xor(Crc32(summed), 0xFFFF_FFFF) as int)
  {
    hide WordSum, ReadHex, WireForm, Crc32, Xor, FiveSymbols;
    if ct == Internet { InternetVerifies(summed); } else { CrcWire(summed); }
  }

  /** SOF, type, stuffed payload, EOFs, a checksum that verifies, CR and LF. */
  lemma FrameBytes(ct: ChecksumType, ty: byte, data: seq<byte>)
    requires Encodable(ct, |data|)
    ensures |Summed(ct, ty, data)| <= 0xFFFF || ct == Crc32Type
    ensures var sum := WireForm(ct, Summed(ct, ty, data));
      && EncodedFrame(ct, ty, data) == [0x3E, ty] + PayloadOnTheWire(data) + Ends(ct, |data|) + sum + [0x0D, 0x0A]
      && (ct == Internet ==> Verifies(Summed(ct, ty, data), sum))
      && (ct == Crc32Type ==> sum == FiveSymbols(Xor(Crc32(Summed(ct, ty, data)), 0xFFFF_FFFF) as int))
  {
    hide WireForm, Verifies, Crc32, Xor, FiveSymbols, Escape, PayloadOnTheWire;
    SummedIs(ct, ty, data);
    EscapedPayload(data);
    WireSumIs(ct, Summed(ct, ty, data));
  }

  // ---------------------------------------------------------------- what the decoder takes for a checksum

  lemma VerifiesOnce(summed: seq<byte>, sum: seq<byte>, other: seq<byte>)
    requires Verifies(summed, sum) && Verifies(summed, other)
    ensures sum == other
  {
    hide WordSum, ReadHex;
    HexBound(sum);
    HexBound(other);
    CloseMultiples(WordSum(summed) + ReadHex(sum).value, WordSum(summed) + ReadHex(other).value);
    ReadHexOnce(sum, other);
  }

  /** Accepted as the checksum of a frame: four zeros, or what verifies; for CRC-32 nothing but the symbols of the register. */
  predicate Good(ct: ChecksumType, summed: seq<byte>, sum: seq<byte>) {
    if ct == Internet then sum == [0x30, 0x30, 0x30, 0x30] || Verifies(summed, sum)
    else sum == FiveSymbols(Xor(Crc32(summed), 0xFFFF_FFFF) as int)
  }

  lemma AcceptedIsGood(ct: ChecksumType, ty: byte, data: seq<byte>, sum: seq<byte>)
    requires Encodable(ct, |data|) && |sum| == if ct == Internet then 4 else 5
    ensures SumAccepted(ct, ty, data, sum) <==> Good(ct, Summed(ct, ty, data), sum)
  {
    hide WireForm, Verifies, Crc32, Xor, FiveSymbols;
    SentinelIs(ct, sum);
    SummedIs(ct, ty, data);
    WireSumIs(ct, Summed(ct, ty, data));
    if ct == Internet && Verifies(Summed(ct, ty, data), sum) {
      VerifiesOnce(Summed(ct, ty, data), sum, WireForm(ct, Summed(ct, ty, data)));
    }
  }

  // ---------------------------------------------------------------- what the decoder makes of a whole span

  /** `body` stands for `data`: any byte may follow an escape and is itself, but `0` and `F` are 0x00 and 0xFF. */
  predicate StandsFor(body: seq<byte>, data: seq<byte>)
    decreases |data|
  {
    if data == [] then body == []
    else if body == [] then false
    else if body[0] == 0x5C then
      |body| >= 2 && data[0] == (if body[1] == 0x30 then 0x00 else if body[1] == 0x46 then 0xFF else body[1])
      && StandsFor(body[2..], data[1..])
    else body[0] != 0x3E && body[0] != 0x3C && data[0] == body[0] && StandsFor(body[1..], data[1..])
  }

  lemma {:induction false} FeedStuffed(p: Parser, ty: byte, before: seq<byte>, seen: seq<byte>, body: seq<byte>, data: seq<byte>)
    requires p.phase == InData(ty, before, seen) && StandsFor(body, data) && Occupancy(p) + |body| <= RAW_BUF_CAP
    ensures Leads(p, body, p.(phase := InData(ty, before + body, seen + data)))
    decreases |data|
  {
    if data == [] {
      assert before + [] == before && seen + [] == seen;
      RunsNone(Feed, p);
    } else {
      var n := if body[0] == 0x5C then 2 else 1;
      var q := p.(phase := InData(ty, before + body[..n], seen + [data[0]]));
      FeedOne(p, ty, before, seen, body[..n], data[0]);
      FeedStuffed(q, ty, before + body[..n], seen + [data[0]], body[n..], data[1..]);
      SeqAssoc(before, body[..n], body[n..]);
      SeqAssoc(seen, [data[0]], data[1..]);
      assert body[..n] + body[n..] == body && [data[0]] + data[1..] == data;
      LeadsThen(p, body[..n], q, body[n..], p.(phase := InData(ty, before + body, seen + data)));
    }
  }

  lemma FeedOne(p: Parser, ty: byte, before: seq<byte>, seen: seq<byte>, unit: seq<byte>, b: byte)
    requires p.phase == InData(ty, before, seen) && StandsFor(unit, [b]) && Occupancy(p) + |unit| <= RAW_BUF_CAP
    ensures Leads(p, unit, p.(phase := InData(ty, before + unit, seen + [b])))
  {
    if unit[0] == 0x5C {
      assert unit == [0x5C, unit[1]];
      var q := p.(phase := InEscape(ty, before, seen));
      assert Feed(p, 0x5C) == q;
      assert Feed(q, unit[1]) == p.(phase := InData(ty, before + unit, seen + [b]));
      LeadsOne(p, 0x5C);
      LeadsOne(q, unit[1]);
      LeadsThen(p, [0x5C], q, [unit[1]], Feed(q, unit[1]));
      assert [0x5C] + [unit[1]] == unit;
    } else {
      assert unit == [b];
      assert Feed(p, b) == p.(phase := InData(ty, before + [b], seen + [b]));
      LeadsOne(p, b);
    }
  }

  lemma {:induction false} NoLonger(body: seq<byte>, data: seq<byte>)
    requires StandsFor(body, data)
    ensures |data| <= |body|
    decreases |data|
  {
    if data != [] { NoLonger(body[if body[0] == 0x5C then 2 else 1..], data[1..]); }
  }

  lemma ReachSum(p: Parser, ty: byte, body: seq<byte>, data: seq<byte>)
    requires CanStart(p.phase) && CursorsFit(p) && ty != 0x3E && ty != 0x3C && StandsFor(body, data)
    requires Occupancy(p) + 2 + |body| + |Ends(p.ct, |data|)| <= RAW_BUF_CAP
    ensures Leads(p, [0x3E, ty] + body + Ends(p.ct, |data|), Resync(p).(phase := InSum(ty, body, data, [])))
    ensures Occupancy(Resync(p)) == Occupancy(p)
  {
    hide StandsFor;
    var q := Resync(p).(phase := InData(ty, [], []));
    var r := Resync(p).(phase := InData(ty, body, data));
    FeedHeader(p, ty);
    FeedStuffed(q, ty, [], [], body, data);
    assert [] + body == body && [] + data == data;
    SummedIs(p.ct, ty, data);
    FeedEofs(r, ty, body, data);
    LeadsThen(p, [0x3E, ty], q, body, r);
    LeadsThen(p, [0x3E, ty] + body, r, Ends(p.ct, |data|), Resync(p).(phase := InSum(ty, body, data, [])));
  }

  /** The parser behind a span that failed its check: all of it is raw. */
  function Refused(p: Parser, wire: seq<byte>): Parser {
    Settle(p, wire).(phase := Idle)
  }

  lemma FeedBadSum(p: Parser, ty: byte, body: seq<byte>, data: seq<byte>, sum: seq<byte>, wire: seq<byte>)
    requires p.phase == InSum(ty, body, data, []) && |sum| == EncodedLen(p.ct) && !SumAccepted(p.ct, ty, data, sum)
    requires Occupancy(p) + |sum| <= RAW_BUF_CAP && wire == [0x3E, ty] + body + Ends(p.ct, |data|) + sum
    ensures Leads(p, sum, Refused(p, wire))
  {
    hide SumAccepted;
    var n := |sum| - 1;
    var q := p.(phase := InSum(ty, body, data, sum[..n]));
    assert sum[..n] + [sum[n]] == sum;
    SummedIs(p.ct, ty, data);
    FeedSumPrefix(p, ty, body, data, sum[..n]);
    SeqAssoc([0x3E, ty] + body + Ends(p.ct, |data|), sum[..n], [sum[n]]);
    assert Feed(q, sum[n]) == Refused(p, wire);
    LeadsOne(q, sum[n]);
    LeadsThen(p, sum[..n], q, [sum[n]], Feed(q, sum[n]));
  }

  lemma SpanLeads(p: Parser, ty: byte, body: seq<byte>, data: seq<byte>, sum: seq<byte>, wire: seq<byte>)
    requires CanStart(p.phase) && CursorsFit(p) && ty != 0x3E && ty != 0x3C && StandsFor(body, data)
    requires |sum| == EncodedLen(p.ct)
    requires wire == [0x3E, ty] + body + Ends(p.ct, |data|) + sum && Occupancy(p) + |wire| <= RAW_BUF_CAP
    ensures Leads(p, wire,
      if SumAccepted(p.ct, ty, data, sum) then Completed(Resync(p), wire, Frame(ty, data)) else Refused(Resync(p), wire))
  {
    hide SumAccepted, StandsFor;
    var head, q := [0x3E, ty] + body + Ends(p.ct, |data|), Resync(p).(phase := InSum(ty, body, data, []));
    ReachSum(p, ty, body, data);
    SummedIs(p.ct, ty, data);
    if SumAccepted(p.ct, ty, data, sum) {
      FeedWholeSum(q, ty, body, data, sum);
      LeadsThen(p, head, q, sum, Completed(Resync(p), wire, Frame(ty, data)));
    } else {
      FeedBadSum(q, ty, body, data, sum, wire);
      LeadsThen(p, head, q, sum, Refused(Resync(p), wire));
    }
  }

  /**
   * From any state but inside an escape or a checksum, a whole span becomes the frame it stands for if its checksum is good,
   * and raw content if it is not; what was open before is raw in either case, and nothing is dropped.
   */
  lemma SpanDecides(p: Parser, ty: byte, body: seq<byte>, data: seq<byte>, sum: seq<byte>)
    requires !p.phase.InEscape? && !p.phase.InSum? && CursorsFit(p) && ty != 0x3E && ty != 0x3C && StandsFor(body, data)
    requires |sum| == if p.ct == Internet then 4 else 5
    requires Occupancy(p) + 2 + |body| + |Ends(p.ct, |data|)| + |sum| <= 609
    ensures var wire := [0x3E, ty] + body + Ends(p.ct, |data|) + sum;
      var q := FeedAll(p, wire);
      && q.drops == p.drops
      && if Good(p.ct, Summed(p.ct, ty, data), sum) then
           q.frames == p.frames + [Frame(ty, data)] && q.kept == p.kept + OpenBytes(p.ct, p.phase)
         else q.frames == p.frames && q.kept == p.kept + OpenBytes(p.ct, p.phase) + wire
  {
    hide SumAccepted, StandsFor, Good, Feed;
    var wire := [0x3E, ty] + body + Ends(p.ct, |data|) + sum;
    NoLonger(body, data);
    AcceptedIsGood(p.ct, ty, data, sum);
    SpanLeads(p, ty, body, data, sum, wire);
    RunsFold(Feed, p, wire,
      if SumAccepted(p.ct, ty, data, sum) then Completed(Resync(p), wire, Frame(ty, data)) else Refused(Resync(p), wire));
    assert OpenBytes(p.ct, p.phase) == [] ==> p.kept + OpenBytes(p.ct, p.phase) == p.kept;
  }

  // ---------------------------------------------------------------- everything that is no span

  /** Outside an attempt, bytes that are not SOF come up as they are. */
  lemma {:induction false} NoiseIsRaw(p: Parser, bs: seq<byte>)
    requires p.phase.Idle? && CursorsFit(p) && 0x3E !in bs && Occupancy(p) + |bs| <= 609
    ensures var q := FeedAll(p, bs);
      q.kept == p.kept + bs && q.frames == p.frames && q.drops == p.drops && q.phase.Idle?
    decreases |bs|
  {
    if bs == [] {
      assert p.kept + bs == p.kept;
    } else {
      var q := Feed(p, bs[0]);
      assert q.kept == p.kept + [bs[0]];
      NoiseIsRaw(q, bs[1..]);
      SeqAssoc(p.kept, [bs[0]], bs[1..]);
      assert [bs[0]] + bs[1..] == bs;
    }
  }

  /** An EOF where the type should be ends the attempt. */
  lemma NoTypeIsRaw(p: Parser)
    requires CanStart(p.phase) && CursorsFit(p) && Occupancy(p) + 2 <= 609
    ensures var q := FeedAll(p, [0x3E, 0x3C]);
      && q.kept == p.kept + OpenBytes(p.ct, p.phase) + [0x3E, 0x3C] && q.phase.Idle?
      && q.frames == p.frames && q.drops == p.drops
  {
    var q := Feed(p, 0x3E);
    LeadsOne(p, 0x3E);
    LeadsOne(q, 0x3C);
    LeadsThen(p, [0x3E], q, [0x3C], Feed(q, 0x3C));
    assert [0x3E] + [0x3C] == [0x3E, 0x3C];
    RunsFold(Feed, p, [0x3E, 0x3C], Feed(q, 0x3C));
    assert OpenBytes(p.ct, p.phase) == [] ==> p.kept + OpenBytes(p.ct, p.phase) == p.kept;
  }

  /** So does any other byte where the second EOF should be; a SOF begins the next attempt. */
  lemma OneEofIsRaw(p: Parser, b: byte)
    requires p.phase.AfterEof? && CursorsFit(p) && Occupancy(p) < 609 && b != 0x3C
    ensures var q := Feed(p, b);
      && q.frames == p.frames && q.drops == p.drops
      && if b == 0x3E then q.kept == p.kept + OpenBytes(p.ct, p.phase) && q.phase.AfterSof?
         else q.kept == p.kept + (OpenBytes(p.ct, p.phase) + [b]) && q.phase.Idle?
  {
  }

  /** CR right behind a frame vanishes, and LF right behind that; anything else is taken as if nothing had gone before. */
  lemma TrailerVanishes(p: Parser, b: byte)
    requires (p.phase.AfterFrame? || p.phase.AfterFrameCr?) && CursorsFit(p) && Occupancy(p) < 609
    ensures var q := Feed(p, b);
      if b == (if p.phase.AfterFrame? then 0x0D else 0x0A) then
        q.kept == p.kept && q.frames == p.frames && q.drops == p.drops && q.phase == if b == 0x0D then AfterFrameCr else Idle
      else q == Feed(p.(phase := Idle), b)
  {
  }

  /** No other byte vanishes as long as there is room, and no byte is dropped. */
  lemma NothingElseVanishes(p: Parser, b: byte)
    requires CursorsFit(p) && Occupancy(p) < 609
    requires !(p.phase.AfterFrame? && b == 0x0D) && !(p.phase.AfterFrameCr? && b == 0x0A)
    ensures var q := Feed(p, b);
      && q.drops == p.drops && p.log <= q.log
      && forall i :: |p.log| <= i < |q.log| ==> q.log[i].Kept? || q.log[i].Framed?
  {
  }

  /** With 609 bytes held, the next is dropped and the open attempt becomes raw content. */
  lemma FullDropsOne(p: Parser, b: byte)
    requires CursorsFit(p) && Occupancy(p) >= 609
    ensures var q := Feed(p, b);
      && q.drops == p.drops + 1 && q.kept == p.kept + OpenBytes(p.ct, p.phase)
      && q.frames == p.frames && q.phase.Idle?
  {
    assert OpenBytes(p.ct, p.phase) == [] ==> p.kept + OpenBytes(p.ct, p.phase) == p.kept;
  }

  /** Frames are handed out first, oldest first; then all settled bytes at once, under the type 0xFF. */
  lemma TakenIs(p: Parser)
    requires CursorsFit(p)
    ensures var (q, got) := Take(p);
      if p.framesTaken < |p.frames| then
        got == Some(p.frames[p.framesTaken]) && q.framesTaken == p.framesTaken + 1 && q.rawTaken == p.rawTaken
      else if p.rawTaken < |p.kept| then
        got == Some(Frame(0xFF, p.kept[p.rawTaken..])) && q.framesTaken == p.framesTaken && q.rawTaken == |p.kept|
      else got == None && q == p
  {
  }

  /** An attempt given up becomes raw content, and nothing else changes. */
  lemma TimedOutIs(p: Parser)
    ensures var q := TimeOut(p);
      && q.kept == p.kept + OpenBytes(p.ct, p.phase) && q.frames == p.frames && q.drops == p.drops
      && q.framesTaken == p.framesTaken && q.rawTaken == p.rawTaken
      && if p.phase.Idle? || p.phase.AfterFrame? || p.phase.AfterFrameCr? then q == p else q.phase.Idle?
  {
    assert OpenBytes(p.ct, p.phase) == [] ==> p.kept + OpenBytes(p.ct, p.phase) == p.kept;
    assert OpenBytes(p.ct, p.phase) + [] == OpenBytes(p.ct, p.phase);
  }
}
