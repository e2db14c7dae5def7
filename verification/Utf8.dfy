// UTF-8 (RFC 3629) between Unicode strings and bytes: what String::from_utf8 accepts and as_bytes yields.

module Utf8 {
  import opened Bytes

  /** A continuation byte carries six bits. */
  function Tail(v: nat): byte {
    0x80 + v % 64
  }

  function Join(high: nat, tail: byte): int {
    64 * high + tail - 0x80
  }

  function EncodeChar(c: char): (r: seq<byte>)
    ensures 1 <= |r| <= 4
  {
    var v := c as int;
    if v < 0x80 then [v]
    else if v < 0x800 then [0xC0 + v / 64, Tail(v)]
    else if v < 0x1_0000 then [0xE0 + v / 64 / 64, Tail(v / 64), Tail(v)]
    else [0xF0 + v / 64 / 64 / 64, Tail(v / 64 / 64), Tail(v / 64), Tail(v)]
  }

  predicate IsTail(b: byte) {
    0x80 <= b < 0xC0
  }

  /** The scalar value at the front of `bs` and its length; overlong forms and surrogates are refused. */
  function DecodeChar(bs: seq<byte>): (r: Option<(char, nat)>)
    ensures r.Some? ==> 1 <= r.value.1 <= |bs| && r.value.1 <= 4
  {
    if |bs| == 0 then None
    else if bs[0] < 0x80 then Some((bs[0] as char, 1))
    else if 0xC2 <= bs[0] < 0xE0 then
      if |bs| < 2 || !IsTail(bs[1]) then None else Scalar(Join(bs[0] - 0xC0, bs[1]), 0x80, 2)
    else if 0xE0 <= bs[0] < 0xF0 then
      if |bs| < 3 || !IsTail(bs[1]) || !IsTail(bs[2]) then None
      else Scalar(Join(Join(bs[0] - 0xE0, bs[1]), bs[2]), 0x800, 3)
    else if 0xF0 <= bs[0] < 0xF5 then
      if |bs| < 4 || !IsTail(bs[1]) || !IsTail(bs[2]) || !IsTail(bs[3]) then None
      else Scalar(Join(Join(Join(bs[0] - 0xF0, bs[1]), bs[2]), bs[3]), 0x1_0000, 4)
    else None
  }

  function Scalar(v: int, least: nat, len: nat): Option<(char, nat)> {
    if v < 0 || v < least || 0xD800 <= v < 0xE000 || v > 0x10_FFFF then None else Some((v as char, len))
  }

  function Encode(s: string): seq<byte> {
    if s == "" then [] else EncodeChar(s[0]) + Encode(s[1..])
  }

  function Decode(bs: seq<byte>): Option<string>
    decreases |bs|
  {
    if bs == [] then Some("")
    else
      match DecodeChar(bs)
      case None => None
      case Some((c, n)) =>
        match Decode(bs[n..]) { case None => None case Some(s) => Some([c] + s) }
  }

  lemma JoinTail(v: nat)
    ensures Join(v / 64, Tail(v)) == v && IsTail(Tail(v))
  {
  }

  lemma SplitJoin(high: nat, tail: byte)
    requires IsTail(tail)
    ensures Join(high, tail) >= 0 && Join(high, tail) / 64 == high && Tail(Join(high, tail)) == tail
  {
  }

  lemma CharRoundTrip(c: char, rest: seq<byte>)
    ensures DecodeChar(EncodeChar(c) + rest) == Some((c, |EncodeChar(c)|))
  {
    var v := c as int;
    JoinTail(v);
    JoinTail(v / 64);
    JoinTail(v / 64 / 64);
  }

  lemma CharCanonical(bs: seq<byte>)
    requires DecodeChar(bs).Some?
    ensures bs[..DecodeChar(bs).value.1] == EncodeChar(DecodeChar(bs).value.0)
  {
    if 0xC2 <= bs[0] < 0xE0 {
      SplitJoin(bs[0] - 0xC0, bs[1]);
    } else if 0xE0 <= bs[0] < 0xF0 {
      SplitJoin(bs[0] - 0xE0, bs[1]);
      SplitJoin(Join(bs[0] - 0xE0, bs[1]), bs[2]);
    } else if 0xF0 <= bs[0] < 0xF5 {
      SplitJoin(bs[0] - 0xF0, bs[1]);
      SplitJoin(Join(bs[0] - 0xF0, bs[1]), bs[2]);
      SplitJoin(Join(Join(bs[0] - 0xF0, bs[1]), bs[2]), bs[3]);
    }
  }

  /** Decoding undoes encoding. */
  lemma {:induction false} RoundTrip(s: string)
    ensures Decode(Encode(s)) == Some(s)
  {
    if s != "" {
      CharRoundTrip(s[0], Encode(s[1..]));
      RoundTrip(s[1..]);
      assert Encode(s)[|EncodeChar(s[0])|..] == Encode(s[1..]);
      assert [s[0]] + s[1..] == s;
    }
  }

  lemma EncodeCons(bs: seq<byte>, c: char, n: nat, s: string)
    requires n <= |bs| && bs[..n] == EncodeChar(c) && bs[n..] == Encode(s)
    ensures Encode([c] + s) == bs
  {
    assert ([c] + s)[1..] == s;
    assert bs[..n] + bs[n..] == bs;
  }

  /** Only one byte string decodes to a given text. */
  lemma {:induction false} Canonical(bs: seq<byte>)
    requires Decode(bs).Some?
    ensures Encode(Decode(bs).value) == bs
    decreases |bs|
  {
    if bs != [] {
      var (c, n) := DecodeChar(bs).value;
      CharCanonical(bs);
      Canonical(bs[n..]);
      EncodeCons(bs, c, n, Decode(bs[n..]).value);
    }
  }

  // ---------------------------------------------------------------- what the bytes are

  lemma SixBits(high: nat, low: nat, v: nat)
    requires low < 64 && v == 64 * high + low
    ensures v / 64 == high && Tail(v) == 0x80 + low
  {
  }

  /** A character is its own byte, or groups of six bits, in bytes that count from 0x80 on behind the first. */
  lemma CharBits(c: char, v: nat, p: nat, q: nat, r: nat, s: nat)
    requires v == c as int && q < 64 && r < 64 && s < 64
    ensures v < 0x80 ==> EncodeChar(c) == [v]
    ensures 0x80 <= v < 0x800 && v == 64 * p + q ==> EncodeChar(c) == [0xC0 + p, 0x80 + q]
    ensures 0x800 <= v < 0x1_0000 && v == 64 * (64 * p + q) + r ==> EncodeChar(c) == [0xE0 + p, 0x80 + q, 0x80 + r]
    ensures 0x1_0000 <= v && v == 64 * (64 * (64 * p + q) + r) + s ==>
      EncodeChar(c) == [0xF0 + p, 0x80 + q, 0x80 + r, 0x80 + s]
  {
    hide Tail;
    SixBits(p, q, 64 * p + q);
    SixBits(64 * p + q, r, 64 * (64 * p + q) + r);
    SixBits(64 * (64 * p + q) + r, s, 64 * (64 * (64 * p + q) + r) + s);
  }

  /** Texts are written character by character, from the front. */
  lemma {:induction false} Concat(a: string, b: string)
    ensures Encode(a + b) == Encode(a) + Encode(b)
    ensures |a| == 1 ==> Encode(a) == EncodeChar(a[0])
    decreases |a|
  {
    if a == "" {
      assert a + b == b;
    } else {
      Concat(a[1..], b);
      assert (a + b)[1..] == a[1..] + b;
      SeqAssoc(EncodeChar(a[0]), Encode(a[1..]), Encode(b));
      assert |a| == 1 ==> a[1..] == "";
    }
  }
}
