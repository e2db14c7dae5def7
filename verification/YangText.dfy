// Text forms used by the YANG codec: decimal numbers, base64 (RFC 4648), words and split-once.

module YangText {
  import opened Bytes

  // ---------------------------------------------------------------- decimal numbers

  predicate IsDigit(c: char) {
    '0' <= c <= '9'
  }

  function DigitOf(d: nat): char
    requires d < 10
  {
    '0' + d as char
  }

  function PrintNat(n: nat): (s: string)
    ensures s != "" && forall i :: 0 <= i < |s| ==> IsDigit(s[i])
  {
    if n < 10 then [DigitOf(n)] else PrintNat(n / 10) + [DigitOf(n % 10)]
  }

  function Print(n: int): string {
    if n < 0 then "-" + PrintNat(-n) else PrintNat(n)
  }

  /** Every character a digit, at least one. */
  predicate AllDigits(s: string) {
    s != "" && forall i :: 0 <= i < |s| ==> IsDigit(s[i])
  }

  function DigitValue(c: char): nat
    requires IsDigit(c)
  {
    c as int - 48
  }

  function DigitsValue(s: string): nat
    requires forall i :: 0 <= i < |s| ==> IsDigit(s[i])
  {
    if s == "" then 0 else 10 * DigitsValue(s[..|s| - 1]) + DigitValue(s[|s| - 1])
  }

  /** An optional sign, then digits; a minus only where the type is signed; the value must be in range. */
  function ParseInt(s: string, lo: int, hi: int): Option<int> {
    var minus := lo < 0 && s != "" && s[0] == '-';
    var digits := if s != "" && (minus || s[0] == '+') then s[1..] else s;
    if !AllDigits(digits) then None
    else
      var n := if minus then -(DigitsValue(digits) as int) else DigitsValue(digits);
      if lo <= n <= hi then Some(n) else None
  }

  lemma {:induction false} PrintValue(n: nat)
    ensures DigitsValue(PrintNat(n)) == n
  {
    if n >= 10 {
      PrintValue(n / 10);
      assert PrintNat(n)[..|PrintNat(n)| - 1] == PrintNat(n / 10);
    } else {
      assert DigitsValue([DigitOf(n)][..0]) == 0;
    }
  }

  /** Parsing a printed number in range gives it back. */
  lemma PrintParse(n: int, lo: int, hi: int)
    requires lo <= n <= hi
    ensures ParseInt(Print(n), lo, hi) == Some(n)
  {
    if n < 0 {
      PrintValue(-n);
      assert Print(n)[1..] == PrintNat(-n);
    } else {
      PrintValue(n);
      assert IsDigit(PrintNat(n)[0]);
    }
  }

  // ---------------------------------------------------------------- base64

  function B64Char(n: nat): char
    requires n < 64
  {
    if n < 26 then 'A' + n as char
    else if n < 52 then 'a' + (n - 26) as char
    else if n < 62 then '0' + (n - 52) as char
    else if n == 62 then '+'
    else '/'
  }

  function B64Val(c: char): (r: Option<nat>)
    ensures r.Some? ==> r.value < 64
  {
    if 'A' <= c <= 'Z' then Some((c - 'A') as nat)
    else if 'a' <= c <= 'z' then Some((c - 'a') as nat + 26)
    else if '0' <= c <= '9' then Some((c - '0') as nat + 52)
    else if c == '+' then Some(62)
    else if c == '/' then Some(63)
    else None
  }

  lemma B64Inverse(n: nat)
    requires n < 64
    ensures B64Val(B64Char(n)) == Some(n) && !Skipped(B64Char(n))
  {
  }

  /** Padding and ASCII white space. */
  predicate Skipped(c: char) {
    c == '=' || c == ' ' || c == '\t' || c == '\n' || c == 12 as char || c == '\r'
  }

  function Sextet(n: nat, k: nat): nat {
    if k == 0 then n / 0x4_0000 % 64 else if k == 1 then n / 0x1000 % 64 else if k == 2 then n / 64 % 64 else n % 64
  }

  function Byte3(chunk: seq<byte>, k: nat): byte {
    if k < |chunk| then chunk[k] else 0
  }

  /** Up to three bytes as one 24-bit number. */
  function Group(chunk: seq<byte>): nat {
    0x1_0000 * (Byte3(chunk, 0) as int) + 0x100 * (Byte3(chunk, 1) as int) + Byte3(chunk, 2)
  }

  /** Four characters for one chunk of one to three bytes, padded. */
  function EncodeChunk(chunk: seq<byte>): string {
    var n := Group(chunk);
    [B64Char(Sextet(n, 0)), B64Char(Sextet(n, 1)),
     if |chunk| > 1 then B64Char(Sextet(n, 2)) else '=', if |chunk| > 2 then B64Char(Sextet(n, 3)) else '=']
  }

  function Take3(data: seq<byte>): seq<byte> {
    if |data| < 3 then data else data[..3]
  }

  function Base64Encode(data: seq<byte>): string {
    if data == [] then "" else EncodeChunk(Take3(data)) + Base64Encode(data[|Take3(data)|..])
  }

  function Clean(s: string): string {
    if s == "" then "" else (if Skipped(s[0]) then "" else [s[0]]) + Clean(s[1..])
  }

  function Vals(s: string): Option<seq<nat>> {
    if s == "" then Some([])
    else
      match B64Val(s[0])
      case None => None
      case Some(v) => match Vals(s[1..]) { case None => None case Some(vs) => Some([v] + vs) }
  }

  function Val(vs: seq<nat>, k: nat): nat {
    if k < |vs| then vs[k] else 0
  }

  function Joined(vs: seq<nat>): nat {
    0x4_0000 * Val(vs, 0) + 0x1000 * Val(vs, 1) + 64 * Val(vs, 2) + Val(vs, 3)
  }

  /** The bytes of one to four sextets; one sextet alone still gives a byte. */
  function DecodeChunk(vs: seq<nat>): seq<byte> {
    var n := Joined(vs);
    [n / 0x1_0000 % 256] + (if |vs| > 2 then [n / 0x100 % 256] else []) + (if |vs| > 3 then [n % 256] else [])
  }

  function Take4<T>(s: seq<T>): seq<T> {
    if |s| < 4 then s else s[..4]
  }

  function DecodeClean(s: string): Option<seq<byte>>
    decreases |s|
  {
    if s == "" then Some([])
    else
      match Vals(Take4(s))
      case None => None
      case Some(vs) =>
        match DecodeClean(s[|Take4(s)|..]) { case None => None case Some(rest) => Some(DecodeChunk(vs) + rest) }
  }

  function Base64Decode(s: string): Option<seq<byte>> {
    DecodeClean(Clean(s))
  }

  /** A chunk's characters without padding. */
  function Core(chunk: seq<byte>): string {
    EncodeChunk(chunk)[..(if |chunk| >= 3 then 4 else |chunk| + 1)]
  }

  lemma {:induction false} CleanConcat(a: string, b: string)
    ensures Clean(a + b) == Clean(a) + Clean(b)
    decreases |a|
  {
    if a == "" {
      assert a + b == b;
    } else {
      assert (a + b)[1..] == a[1..] + b;
      CleanConcat(a[1..], b);
    }
  }

  lemma CleanChar(c: char)
    ensures Clean([c]) == if Skipped(c) then "" else [c]
  {
    assert [c][1..] == "";
  }

  lemma CleanOfChunk(chunk: seq<byte>)
    requires 1 <= |chunk| <= 3
    ensures Clean(EncodeChunk(chunk)) == Core(chunk)
  {
    var s, n := EncodeChunk(chunk), Group(chunk);
    B64Inverse(Sextet(n, 0));
    B64Inverse(Sextet(n, 1));
    B64Inverse(Sextet(n, 2));
    B64Inverse(Sextet(n, 3));
    CleanFour(s[0], s[1], s[2], s[3]);
    assert s == [s[0], s[1], s[2], s[3]];
  }

  lemma CleanFour(a: char, b: char, c: char, d: char)
    requires !Skipped(a) && !Skipped(b)
    ensures Clean([a, b, c, d]) ==
      [a, b] + ((if Skipped(c) then "" else [c]) + (if Skipped(d) then "" else [d]))
  {
    assert [a, b, c, d] == [a] + ([b] + ([c] + [d]));
    CleanConcat([a], [b] + ([c] + [d]));
    CleanConcat([b], [c] + [d]);
    CleanConcat([c], [d]);
    CleanChar(a);
    CleanChar(b);
    CleanChar(c);
    CleanChar(d);
  }

  lemma SextetsJoin(n: nat)
    requires n < 0x100_0000
    ensures 0x4_0000 * Sextet(n, 0) + 0x1000 * Sextet(n, 1) + 64 * Sextet(n, 2) + Sextet(n, 3) == n
  {
    assert n / 64 / 64 == n / 0x1000 && n / 0x1000 / 64 == n / 0x4_0000;
  }

  lemma GroupBytes(a: byte, b: byte, c: byte, n: nat)
    requires n == 0x1_0000 * (a as int) + 0x100 * (b as int) + c
    ensures n < 0x100_0000 && n / 0x1_0000 % 256 == a && n / 0x100 % 256 == b && n % 256 == c
    ensures b == 0 && c == 0 ==> Sextet(n, 2) == 0 && Sextet(n, 3) == 0
    ensures c == 0 ==> Sextet(n, 3) == 0
  {
    HighBytes(a, b, c);
    if c == 0 { LowSextets(0x100 * (a as int) + b); }
  }

  lemma HighBytes(a: nat, b: nat, c: nat)
    requires a < 256 && b < 256 && c < 256
    ensures var n := 0x1_0000 * a + 0x100 * b + c;
      n < 0x100_0000 && n / 0x100 == 0x100 * a + b && n % 256 == c && n / 0x1_0000 == a
  {
  }

  lemma LowSextets(high: nat)
    ensures 0x100 * high % 64 == 0 && (high % 256 == 0 ==> 0x100 * high / 64 % 64 == 0)
  {
    assert 0x100 * high == 64 * (4 * high);
  }

  lemma ValsCons(v: nat, rest: string, vs: seq<nat>, s: string, out: seq<nat>)
    requires v < 64 && Vals(rest) == Some(vs) && s == [B64Char(v)] + rest && out == [v] + vs
    ensures Vals(s) == Some(out)
  {
    B64Inverse(v);
    assert s[1..] == rest;
  }

  lemma ValsOfFour(a: nat, b: nat, c: nat, d: nat)
    requires a < 64 && b < 64 && c < 64 && d < 64
    ensures Vals([B64Char(a), B64Char(b)]) == Some([a, b])
    ensures Vals([B64Char(a), B64Char(b), B64Char(c)]) == Some([a, b, c])
    ensures Vals([B64Char(a), B64Char(b), B64Char(c), B64Char(d)]) == Some([a, b, c, d])
  {
    var ca, cb, cc, cd := B64Char(a), B64Char(b), B64Char(c), B64Char(d);
    ValsCons(d, "", [], [cd], [d]);
    ValsCons(c, "", [], [cc], [c]);
    ValsCons(b, "", [], [cb], [b]);
    ValsCons(c, [cd], [d], [cc, cd], [c, d]);
    ValsCons(b, [cc], [c], [cb, cc], [b, c]);
    ValsCons(b, [cc, cd], [c, d], [cb, cc, cd], [b, c, d]);
    ValsCons(a, [cb], [b], [ca, cb], [a, b]);
    ValsCons(a, [cb, cc], [b, c], [ca, cb, cc], [a, b, c]);
    ValsCons(a, [cb, cc, cd], [b, c, d], [ca, cb, cc, cd], [a, b, c, d]);
  }

  lemma ValsOfCore(chunk: seq<byte>, n: nat)
    requires 1 <= |chunk| <= 3 && n == Group(chunk)
    ensures Vals(Core(chunk)) == Some(
      if |chunk| == 1 then [Sextet(n, 0), Sextet(n, 1)]
      else if |chunk| == 2 then [Sextet(n, 0), Sextet(n, 1), Sextet(n, 2)]
      else [Sextet(n, 0), Sextet(n, 1), Sextet(n, 2), Sextet(n, 3)])
  {
    var a, b, c, d := Sextet(n, 0), Sextet(n, 1), Sextet(n, 2), Sextet(n, 3);
    ValsOfFour(a, b, c, d);
    var s := EncodeChunk(chunk);
    if |chunk| == 1 {
      assert s[..2] == [B64Char(a), B64Char(b)];
    } else if |chunk| == 2 {
      assert s[..3] == [B64Char(a), B64Char(b), B64Char(c)];
    } else {
      assert s[..4] == [B64Char(a), B64Char(b), B64Char(c), B64Char(d)];
    }
  }

  lemma ChunkRoundTrip(chunk: seq<byte>)
    requires 1 <= |chunk| <= 3
    ensures Vals(Core(chunk)).Some? && DecodeChunk(Vals(Core(chunk)).value) == chunk
  {
    var n := Group(chunk);
    ValsOfCore(chunk, n);
    GroupBytes(Byte3(chunk, 0), Byte3(chunk, 1), Byte3(chunk, 2), n);
    SextetsJoin(n);
    assert Joined(Vals(Core(chunk)).value) == n;
  }

  /** Decoding what was encoded gives the data back. */
  lemma {:induction false} Base64RoundTrip(data: seq<byte>)
    ensures Base64Decode(Base64Encode(data)) == Some(data)
    decreases |data|
  {
    if data != [] {
      var chunk := Take3(data);
      var rest := data[|chunk|..];
      Base64RoundTrip(rest);
      CleanConcat(EncodeChunk(chunk), Base64Encode(rest));
      CleanOfChunk(chunk);
      var c, t := Core(chunk), Clean(Base64Encode(rest));
      if rest == [] {
        assert Base64Encode(rest) == "" && c + t == c;
      }
      ChunkRoundTrip(chunk);
      assert Take4(c + t) == c && (c + t)[|c|..] == t;
      assert chunk + rest == data;
    }
  }

  /** Padding and white space anywhere make no difference to what is decoded. */
  lemma Base64IgnoresSkipped(a: string, c: char, b: string)
    requires Skipped(c)
    ensures Base64Decode(a + [c] + b) == Base64Decode(a + b)
  {
    CleanConcat(a + [c], b);
    CleanConcat(a, [c]);
    CleanConcat(a, b);
    CleanChar(c);
    assert Clean(a) + "" == Clean(a);
  }

  method EncodeBase64(data: seq<byte>) returns (out: string)
    ensures out == Base64Encode(data)
  {
    out := "";
    var i := 0;
    while i < |data|
      invariant 0 <= i <= |data| && out + Base64Encode(data[i..]) == Base64Encode(data)
    {
      var chunk := if |data| - i < 3 then data[i..] else data[i..i + 3];
      assert chunk == Take3(data[i..]) && data[i..][|chunk|..] == data[i + |chunk|..];
      var n := Group(chunk);
      var four := [B64Char(n / 0x4_0000 % 64), B64Char(n / 0x1000 % 64),
                   if |chunk| > 1 then B64Char(n / 64 % 64) else '=', if |chunk| > 2 then B64Char(n % 64) else '='];
      assert four == EncodeChunk(chunk);
      SeqAssoc(out, four, Base64Encode(data[i + |chunk|..]));
      out := out + four;
      i := i + |chunk|;
    }
  }

  method DecodeBase64(s: string) returns (r: Option<seq<byte>>)
    ensures r == Base64Decode(s)
  {
    var clean := Clean(s);
    var out: seq<byte> := [];
    var i := 0;
    assert clean[0..] == clean && (DecodeClean(clean).Some? ==> [] + DecodeClean(clean).value == DecodeClean(clean).value);
    while i < |clean|
      invariant 0 <= i <= |clean|
      invariant DecodeClean(clean) == Onto(out, DecodeClean(clean[i..]))
    {
      var chunk := if |clean| - i < 4 then clean[i..] else clean[i..i + 4];
      assert chunk == Take4(clean[i..]) && clean[i..][|chunk|..] == clean[i + |chunk|..];
      var vals := Vals(chunk);
      if vals.None? { return None; }
      OntoTwice(out, DecodeChunk(vals.value), DecodeClean(clean[i + |chunk|..]));
      out := out + DecodeChunk(vals.value);
      i := i + |chunk|;
    }
    assert out + [] == out;
    return Some(out);
  }

  function Onto(front: seq<byte>, rest: Option<seq<byte>>): Option<seq<byte>> {
    match rest case None => None case Some(bs) => Some(front + bs)
  }

  lemma OntoTwice(a: seq<byte>, b: seq<byte>, rest: Option<seq<byte>>)
    ensures Onto(a, Onto(b, rest)) == Onto(a + b, rest)
  {
    if rest.Some? { SeqAssoc(a, b, rest.value); }
  }

  // ---------------------------------------------------------------- words and split-once

  /** Unicode white space. */
  predicate IsSpace(c: char) {
    var v := c as int;
    9 <= v <= 13 || v == 32 || v == 0x85 || v == 0xA0 || v == 0x1680 || 0x2000 <= v <= 0x200A
    || v == 0x2028 || v == 0x2029 || v == 0x202F || v == 0x205F || v == 0x3000
  }

  predicate NoSpace(s: string) {
    forall i :: 0 <= i < |s| ==> !IsSpace(s[i])
  }

  /** The length of the leading run of non-space characters. */
  function WordLen(s: string): (n: nat)
    ensures n <= |s| && NoSpace(s[..n]) && (n < |s| ==> IsSpace(s[n]))
  {
    if s == "" || IsSpace(s[0]) then 0
    else
      assert forall i :: 1 <= i < 1 + WordLen(s[1..]) ==> s[i] == s[1..][i - 1];
      1 + WordLen(s[1..])
  }

  function Words(s: string): seq<string>
    decreases |s|
  {
    if s == "" then []
    else if IsSpace(s[0]) then Words(s[1..])
    else [s[..WordLen(s)]] + Words(s[WordLen(s)..])
  }

  /** Words joined by single spaces. */
  function Join(words: seq<string>): string {
    if words == [] then "" else if |words| == 1 then words[0] else words[0] + " " + Join(words[1..])
  }

  predicate AreWords(words: seq<string>) {
    forall i :: 0 <= i < |words| ==> words[i] != "" && NoSpace(words[i])
  }

  lemma {:induction false} WordLenAt(w: string, rest: string)
    requires NoSpace(w) && (rest != "" ==> IsSpace(rest[0]))
    ensures WordLen(w + rest) == |w|
    decreases |w|
  {
    if w == "" {
      assert w + rest == rest;
    } else {
      assert (w + rest)[1..] == w[1..] + rest;
      WordLenAt(w[1..], rest);
    }
  }

  lemma FirstWord(w: string, rest: string)
    requires w != "" && NoSpace(w) && (rest != "" ==> IsSpace(rest[0]))
    ensures Words(w + rest) == [w] + Words(rest)
  {
    WordLenAt(w, rest);
    assert (w + rest)[..|w|] == w && (w + rest)[|w|..] == rest;
  }

  lemma {:induction false} WordsOfJoin(words: seq<string>)
    requires AreWords(words)
    ensures Words(Join(words)) == words
    decreases |words|
  {
    if words == [] {
    } else if |words| == 1 {
      FirstWord(words[0], "");
      assert words[0] + "" == words[0] && [words[0]] + [] == words;
    } else {
      var rest := Join(words[1..]);
      WordsOfJoin(words[1..]);
      SpaceSkipped(rest);
      FirstWord(words[0], " " + rest);
      assert words[0] + " " + rest == words[0] + (" " + rest);
      assert [words[0]] + words[1..] == words;
    }
  }

  lemma SpaceSkipped(s: string)
    ensures Words(" " + s) == Words(s)
  {
    assert (" " + s)[1..] == s;
  }

  /** The parts before and after the first `c`. */
  function SplitOnce(s: string, c: char): Option<(string, string)> {
    if s == "" then None
    else if s[0] == c then Some(("", s[1..]))
    else match SplitOnce(s[1..], c) { case None => None case Some((a, b)) => Some(([s[0]] + a, b)) }
  }

  lemma {:induction false} SplitOnceAt(a: string, c: char, b: string)
    requires c !in a
    ensures SplitOnce(a + [c] + b, c) == Some((a, b))
    decreases |a|
  {
    if a == "" {
      assert (a + [c] + b)[1..] == b && (a + [c] + b)[0] == c;
    } else {
      assert (a + [c] + b)[1..] == a[1..] + [c] + b;
      SplitOnceAt(a[1..], c, b);
      assert [a[0]] + a[1..] == a;
    }
  }
}
