// MUP1 wire format and its byte-stuffing encoder: mup1/src/frame.rs, first part.

module Frame {
  import opened Bytes
  import opened Checksum

  const SOF: byte := 0x3E
  const EOF: byte := 0x3C
  const ESC: byte := 0x5C
  const ESCAPED_00: byte := 0x30
  const ESCAPED_FF: byte := 0x46
  const CR: byte := 0x0D
  const LF: byte := 0x0A

  const MAX_DATA_SIZE := 300
  const TYPE_RAW: byte := 0xFF

  /** SOF + TYPE + fully escaped DATA + two EOFs + five checksum bytes. */
  const RAW_BUF_CAP := 1 + 1 + 2 * MAX_DATA_SIZE + 2 + 5

  datatype Frame = Frame(typeByte: byte, data: seq<byte>)

  predicate NeedsEscape(b: byte) {
    b == SOF || b == EOF || b == ESC || b == 0x00 || b == 0xFF
  }

  function EscapeByte(b: byte): byte {
    if b == 0x00 then ESCAPED_00 else if b == 0xFF then ESCAPED_FF else b
  }

  function UnescapeByte(b: byte): byte {
    if b == ESCAPED_00 then 0x00 else if b == ESCAPED_FF then 0xFF else b
  }

  function Stuffed(b: byte): seq<byte> {
    if NeedsEscape(b) then [ESC, EscapeByte(b)] else [b]
  }

  /** The stuffed form of a payload. */
  function Escape(data: seq<byte>): (r: seq<byte>)
    ensures |r| <= 2 * |data|
  {
    if data == [] then [] else Escape(data[..|data| - 1]) + Stuffed(data[|data| - 1])
  }

  /** The payload a stuffed body stands for; `None` when it has a bare delimiter or ends inside an escape. */
  function Unescape(body: seq<byte>): Option<seq<byte>>
    decreases |body|
  {
    if body == [] then Some([])
    else if body[0] == SOF || body[0] == EOF then None
    else if body[0] != ESC then
      match Unescape(body[1..]) { case None => None case Some(d) => Some([body[0]] + d) }
    else if |body| == 1 then None
    else
      match Unescape(body[2..]) { case None => None case Some(d) => Some([UnescapeByte(body[1])] + d) }
  }

  /** The Internet checksum pads an even payload with a second EOF. */
  function EofCount(ct: ChecksumType, dataLen: nat): nat {
    if ct.Internet? && dataLen % 2 == 0 then 2 else 1
  }

  function Eofs(ct: ChecksumType, dataLen: nat): (r: seq<byte>)
    ensures |r| == EofCount(ct, dataLen)
  {
    if EofCount(ct, dataLen) == 2 then [EOF, EOF] else [EOF]
  }

  /** The logical bytes the checksum covers, in the order they are fed. */
  function Logical(ct: ChecksumType, ty: byte, data: seq<byte>): seq<byte> {
    [SOF, ty] + data + Eofs(ct, |data|)
  }

  /** The padding rule always feeds a whole number of 16-bit words. */
  lemma InternetFeedIsEven(ty: byte, data: seq<byte>)
    ensures |Logical(Internet, ty, data)| % 2 == 0
  {
  }

  predicate Encodable(ct: ChecksumType, dataLen: nat) {
    Feedable(ct, 2 + dataLen + EofCount(ct, dataLen))
  }

  /** Everything of a frame up to and including its checksum. */
  ghost function FrameWire(ct: ChecksumType, ty: byte, data: seq<byte>): seq<byte>
    requires Encodable(ct, |data|)
  {
    [SOF, ty] + Escape(data) + Eofs(ct, |data|) + WireForm(ct, Logical(ct, ty, data))
  }

  ghost function EncodedFrame(ct: ChecksumType, ty: byte, data: seq<byte>): seq<byte>
    requires Encodable(ct, |data|)
  {
    FrameWire(ct, ty, data) + [CR, LF]
  }

  /** Feed and stuff the payload, byte by byte. */
  method StuffPayload(running: Running, data: seq<byte>) returns (out: seq<byte>)
    requires running.Valid() && Feedable(running.kind, |running.fed| + |data|)
    modifies running
    ensures running.Valid() && running.fed == old(running.fed) + data
    ensures out == Escape(data)
  {
    hide Running.Valid;
    out := [];
    var i := 0;
    while i < |data|
      invariant 0 <= i <= |data|
      invariant running.Valid() && running.fed == old(running.fed) + data[..i]
      invariant out == Escape(data[..i])
    {
      var b := data[i];
      running.Update(b);
      if NeedsEscape(b) {
        out := out + [ESC, EscapeByte(b)];
      } else {
        out := out + [b];
      }
      assert data[..i + 1] == data[..i] + [b];
      i := i + 1;
    }
    assert data[..i] == data;
  }

  /** One EOF, or two when the Internet checksum needs padding. */
  method CloseFrame(running: Running, dataLen: nat) returns (out: seq<byte>)
    requires running.Valid() && Feedable(running.kind, |running.fed| + EofCount(running.kind, dataLen))
    modifies running
    ensures running.Valid() && running.fed == old(running.fed) + out
    ensures out == Eofs(running.kind, dataLen)
  {
    running.Update(EOF);
    out := [EOF];
    if running.kind.Internet? && dataLen % 2 == 0 {
      running.Update(EOF);
      out := out + [EOF];
    }
  }

  method Encode(ct: ChecksumType, ty: byte, data: seq<byte>) returns (out: seq<byte>)
    requires Encodable(ct, |data|)
    ensures out == EncodedFrame(ct, ty, data)
  {
    hide Running.Valid, WireForm;
    var running := new Running(ct);
    running.Update(SOF);
    running.Update(ty);
    out := [SOF, ty];
    assert running.fed == [SOF, ty];
    var stuffed := StuffPayload(running, data);
    out := out + stuffed;
    var eofs := CloseFrame(running, |data|);
    out := out + eofs;
    var sum := running.Finalize();
    out := out + sum + [CR, LF];
  }

  // ---------------------------------------------------------------- stuffing

  /** Unescaping a whole body and then one more unit appends that unit's byte. */
  lemma {:induction false} UnescapeAppend(body: seq<byte>, tail: seq<byte>)
    requires Unescape(body).Some? && Unescape(tail).Some?
    ensures Unescape(body + tail) == Some(Unescape(body).value + Unescape(tail).value)
    decreases |body|
  {
    if body == [] {
      assert body + tail == tail;
      assert [] + Unescape(tail).value == Unescape(tail).value;
    } else if body[0] == SOF || body[0] == EOF {
    } else if body[0] != ESC {
      UnescapeAppend(body[1..], tail);
      assert (body + tail)[1..] == body[1..] + tail;
      SeqAssoc([body[0]], Unescape(body[1..]).value, Unescape(tail).value);
    } else {
      UnescapeAppend(body[2..], tail);
      assert (body + tail)[2..] == body[2..] + tail;
      SeqAssoc([UnescapeByte(body[1])], Unescape(body[2..]).value, Unescape(tail).value);
    }
  }

  lemma StuffedRoundTrip(b: byte)
    ensures Unescape(Stuffed(b)) == Some([b])
  {
    var u := Stuffed(b);
    assert [b] + [] == [b];
    if NeedsEscape(b) {
      assert u[2..] == [];
    } else {
      assert u[1..] == [];
    }
  }

  /** Stuffing is undone exactly. */
  lemma {:induction false} EscapeRoundTrip(data: seq<byte>)
    ensures Unescape(Escape(data)) == Some(data)
  {
    if data != [] {
      var n := |data| - 1;
      EscapeRoundTrip(data[..n]);
      StuffedRoundTrip(data[n]);
      UnescapeAppend(Escape(data[..n]), Stuffed(data[n]));
      assert data[..n] + [data[n]] == data;
    }
  }

  /** A payload of at most 300 bytes always fits the decoder's buffer. */
  lemma FrameWireFits(ct: ChecksumType, ty: byte, data: seq<byte>)
    requires |data| <= MAX_DATA_SIZE
    ensures Encodable(ct, |data|)
    ensures |FrameWire(ct, ty, data)| <= RAW_BUF_CAP
  {
  }
}
