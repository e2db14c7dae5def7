// Numbers, base64 and bit strings as they are written: decimal digits and their places (RFC 7950 section 9.2), the base64
// alphabet and how it cuts bytes (RFC 4648 section 4), which bit of which byte a position is, and the spans between gaps of
// zero bytes (RFC 9254 section 6.7).

module YangTextLayout {
  import opened BigEndian
  import opened Bytes
  import opened Cbor
  import opened YangBits
  import T = YangText

  // ---------------------------------------------------------------- decimal numbers

  const DIGITS: string := "0123456789"

  /** A number's last digit is its remainder by ten, behind the digits of its tenth part; a minus stands in front. */
  lemma NumberDigits(n: int)
    requires n >= 0
    ensures T.Print(n) == (if n < 10 then "" else T.Print(n / 10)) + [DIGITS[n % 10]]
    ensures n > 0 ==> T.Print(-n) == "-" + T.Print(n)
  {
    assert T.DigitOf(n % 10) == DIGITS[n % 10];
  }

  lemma DigitIs(d: nat)
    requires d < 10
    ensures T.IsDigit(DIGITS[d]) && T.DigitValue(DIGITS[d]) == d
  {
  }

  /** A further digit counts one, and all before it ten times as much. */
  lemma DigitsCount(s: string, d: nat)
    requires d < 10 && forall i :: 0 <= i < |s| ==> T.IsDigit(s[i])
    ensures T.DigitsValue("") == 0 && T.IsDigit(DIGITS[d]) && T.DigitsValue(s + [DIGITS[d]]) == 10 * T.DigitsValue(s) + d
  {
    DigitIs(d);
    assert (s + [DIGITS[d]])[..|s|] == s;
  }

  /** Only the ten digits are digits. */
  lemma DigitsOnly(c: char)
    ensures T.IsDigit(c) <==> c in DIGITS
  {
    assert DIGITS[0] == '0' && DIGITS[1] == '1' && DIGITS[2] == '2' && DIGITS[3] == '3' && DIGITS[4] == '4';
    assert DIGITS[5] == '5' && DIGITS[6] == '6' && DIGITS[7] == '7' && DIGITS[8] == '8' && DIGITS[9] == '9';
  }

  function Negated(s: string, lo: int, hi: int): Option<int>
    requires T.AllDigits(s)
  {
    var n := T.DigitsValue(s) as int;
    if lo <= -n <= hi then Some(-n) else None
  }

  /** A sign is accepted in front of digits, a minus only where negative numbers are allowed, and the value must be in bounds. */
  lemma NumberRead(s: string, lo: int, hi: int)
    requires T.AllDigits(s)
    ensures T.ParseInt(s, lo, hi) == if lo <= T.DigitsValue(s) <= hi then Some(T.DigitsValue(s)) else None
    ensures T.ParseInt("+" + s, lo, hi) == T.ParseInt(s, lo, hi)
    ensures lo < 0 ==> T.ParseInt("-" + s, lo, hi) == Negated(s, lo, hi)
    ensures lo >= 0 ==> T.ParseInt("-" + s, lo, hi) == None
  {
    assert ("+" + s)[1..] == s && ("-" + s)[1..] == s;
    assert ("-" + s)[0] == '-' && !T.IsDigit('-');
  }

  /** What holds no digit behind the sign, or anything but digits, is no number. */
  lemma NoNumber(s: string, lo: int, hi: int)
    requires !T.AllDigits(s) && (s == "" || s[0] !in "+-")
    ensures T.ParseInt(s, lo, hi) == None && T.ParseInt("+" + s, lo, hi) == None && T.ParseInt("-" + s, lo, hi) == None
  {
    assert ("+" + s)[1..] == s && ("-" + s)[1..] == s;
    assert ("-" + s)[0] == '-' && !T.IsDigit('-');
  }

  // ---------------------------------------------------------------- base64

  const UPPER: string := "ABCDEFGHIJKLMNOPQRSTUVWXYZ"
  const LOWER: string := "abcdefghijklmnopqrstuvwxyz"

  /** The base64 alphabet: capitals, small letters, digits, plus and slash. */
  function Symbol(n: nat): char
    requires n < 64
  {
    if n < 26 then UPPER[n] else if n < 52 then LOWER[n - 26] else if n < 62 then DIGITS[n - 52] else "+/"[n - 62]
  }

  lemma UpperIs(n: nat)
    requires n < 26
    ensures UPPER[n] == 'A' + n as char
  {
  }

  lemma LowerIs(n: nat)
    requires n < 26
    ensures LOWER[n] == 'a' + n as char
  {
  }

  lemma SymbolIs(n: nat)
    requires n < 64
    ensures T.B64Char(n) == Symbol(n) && T.B64Val(Symbol(n)) == Some(n)
  {
    if n < 26 { UpperIs(n); } else if n < 52 { LowerIs(n - 26); }
  }

  lemma SextetsIs(a: byte, b: byte, c: byte, n: nat)
    requires n == 0x1_0000 * (a as nat) + 0x100 * (b as nat) + c
    ensures T.Sextet(n, 0) == a / 4 && T.Sextet(n, 1) == a % 4 * 16 + b / 16
    ensures T.Sextet(n, 2) == b % 16 * 4 + c / 64 && T.Sextet(n, 3) == c % 64
  {
    LowSextets(a, b, c, n);
    HighSextets(a, b, c, n);
  }

  lemma LowSextets(a: nat, b: nat, c: nat, n: nat)
    requires a < 0x100 && b < 0x100 && c < 0x100 && n == 0x1_0000 * a + 0x100 * b + c
    ensures n / 64 % 64 == b % 16 * 4 + c / 64 && n % 64 == c % 64
  {
    assert n / 64 == 1024 * a + 4 * b + c / 64;
    assert n / 64 == 64 * (16 * a + b / 16) + (b % 16 * 4 + c / 64);
  }

  lemma HighSextets(a: nat, b: nat, c: nat, n: nat)
    requires a < 0x100 && b < 0x100 && c < 0x100 && n == 0x1_0000 * a + 0x100 * b + c
    ensures n / 0x4_0000 % 64 == a / 4 && n / 0x1000 % 64 == a % 4 * 16 + b / 16
  {
    var m := n / 0x1000;
    assert m == 16 * a + b / 16;
    assert n / 0x4_0000 == m / 64;
  }

  /** Three bytes make four symbols of six bits each; two make three and one makes two, filled up with `=`. */
  lemma GroupWritten(a: byte, b: byte, c: byte)
    ensures T.EncodeChunk([a, b, c]) == [Symbol(a / 4), Symbol(a % 4 * 16 + b / 16), Symbol(b % 16 * 4 + c / 64), Symbol(c % 64)]
    ensures T.EncodeChunk([a, b]) == [Symbol(a / 4), Symbol(a % 4 * 16 + b / 16), Symbol(b % 16 * 4), '=']
    ensures T.EncodeChunk([a]) == [Symbol(a / 4), Symbol(a % 4 * 16), '=', '=']
  {
    hide Symbol, T.B64Char, T.Sextet;
    SextetsIs(a, b, c, T.Group([a, b, c]));
    SextetsIs(a, b, 0, T.Group([a, b]));
    SextetsIs(a, 0, 0, T.Group([a]));
    SymbolIs(a / 4);
    SymbolIs(a % 4 * 16 + b / 16);
    SymbolIs(b % 16 * 4 + c / 64);
    SymbolIs(c % 64);
    SymbolIs(b % 16 * 4);
    SymbolIs(a % 4 * 16);
  }

  /** Bytes are cut into threes from the front. */
  lemma GroupsWritten(data: seq<byte>)
    ensures data == [] ==> T.Base64Encode(data) == ""
    ensures 1 <= |data| <= 3 ==> T.Base64Encode(data) == T.EncodeChunk(data)
    ensures |data| > 3 ==> T.Base64Encode(data) == T.EncodeChunk(data[..3]) + T.Base64Encode(data[3..])
  {
    if 1 <= |data| <= 3 {
      assert T.Take3(data) == data && data[|data|..] == [];
      assert T.EncodeChunk(data) + "" == T.EncodeChunk(data);
    }
  }

  /** Four symbols make three bytes; of fewer, two make one and three make two, and spare bits are dropped. */
  lemma GroupRead(p: nat, q: nat, r: nat, s: nat)
    requires p < 64 && q < 64 && r < 64 && s < 64
    ensures T.DecodeChunk([p, q, r, s]) == [4 * p + q / 16, q % 16 * 16 + r / 4, r % 4 * 64 + s]
    ensures T.DecodeChunk([p, q, r]) == [4 * p + q / 16, q % 16 * 16 + r / 4]
    ensures T.DecodeChunk([p, q]) == [4 * p + q / 16] && T.DecodeChunk([p]) == [4 * p]
  {
    PlacesIs(p, q, r, s, T.Joined([p, q, r, s]));
    PlacesIs(p, q, r, 0, T.Joined([p, q, r]));
    PlacesIs(p, q, 0, 0, T.Joined([p, q]));
    PlacesIs(p, 0, 0, 0, T.Joined([p]));
  }

  lemma PlacesIs(p: nat, q: nat, r: nat, s: nat, n: nat)
    requires p < 64 && q < 64 && r < 64 && s < 64 && n == 0x4_0000 * p + 0x1000 * q + 64 * r + s
    ensures n / 0x1_0000 % 256 == 4 * p + q / 16 && n / 0x100 % 256 == q % 16 * 16 + r / 4 && n % 256 == r % 4 * 64 + s
  {
    assert n / 0x100 == 0x400 * p + 16 * q + r / 4;
    assert n / 0x1_0000 == 4 * p + q / 16;
  }

  lemma SymbolOnly(c: char)
    ensures T.B64Val(c).Some? ==> c == Symbol(T.B64Val(c).value)
  {
    if T.B64Val(c).Some? {
      var n := T.B64Val(c).value;
      SymbolIs(n);
      if n < 26 { UpperIs(n); } else if n < 52 { LowerIs(n - 26); }
    }
  }

  /** Padding and ASCII white space do not count. */
  lemma SkippedOnly(s: string, c: char)
    ensures T.Skipped(c) <==> c == '=' || c as int in {9, 10, 12, 13, 32}
    ensures T.Base64Decode([c] + s) == if T.Skipped(c) then T.Base64Decode(s) else T.DecodeClean([c] + T.Clean(s))
    ensures T.Base64Decode("") == Some([])
  {
    assert ([c] + s)[1..] == s && "" + T.Clean(s) == T.Clean(s);
  }

  /** Four symbols at a time are read, from the front, and fewer only at the end. */
  lemma GroupsRead(four: string, rest: string)
    requires |four| == 4 || (0 < |four| < 4 && rest == "")
    ensures T.DecodeClean(four + rest) == Behind(four, T.DecodeClean(rest))
    ensures T.Vals(four).Some? <==> forall i :: 0 <= i < |four| ==> T.B64Val(four[i]).Some?
    ensures T.Vals(four).Some? ==> |T.Vals(four).value| == |four|
    ensures T.Vals(four).Some? ==> forall i :: 0 <= i < |four| ==> T.B64Val(four[i]) == Some(T.Vals(four).value[i])
  {
    ValsIs(four);
    hide T.Vals, T.DecodeChunk;
    var s := four + rest;
    assert T.Take4(s) == four && s[|four|..] == rest;
  }

  function Behind(four: string, rest: Option<seq<byte>>): Option<seq<byte>> {
    if T.Vals(four).None? || rest.None? then None else Some(T.DecodeChunk(T.Vals(four).value) + rest.value)
  }

  lemma {:induction false} ValsIs(s: string)
    ensures T.Vals(s).Some? <==> forall i :: 0 <= i < |s| ==> T.B64Val(s[i]).Some?
    ensures T.Vals(s).Some? ==> |T.Vals(s).value| == |s|
    ensures T.Vals(s).Some? ==> forall i :: 0 <= i < |s| ==> T.B64Val(s[i]) == Some(T.Vals(s).value[i])
    decreases |s|
  {
    hide T.B64Val;
    if s != "" {
      ValsIs(s[1..]);
      assert forall i :: 0 < i < |s| ==> s[i] == s[1..][i - 1];
      assert forall i :: 0 <= i < |s[1..]| ==> s[1..][i] == s[i + 1];
    }
  }

  // ---------------------------------------------------------------- bits

  lemma HalfThenBy(n: nat, b: nat)
    requires b > 0
    ensures n / 2 / b == n / (2 * b)
  {
    var q := n / 2;
    var p, s := q / b, q % b;
    assert q == b * p + s;
    Regroup(b, p);
    QuotientOf(n, 2 * b, p, 2 * s + n % 2);
  }

  lemma Regroup(b: nat, p: nat)
    ensures (2 * b) * p == 2 * (b * p)
  {
  }

  /** Bit `k` of a byte counts two to the power of `k`. */
  lemma {:induction false} BitCounts(b: nat, k: nat)
    ensures Pow2(k) > 0 && (BitOf(b, k) <==> b / Pow2(k) % 2 == 1)
    ensures Pow2(k) == if k == 0 then 1 else 2 * Pow2(k - 1)
    decreases k
  {
    if k > 0 {
      BitCounts(b / 2, k - 1);
      HalfThenBy(b, Pow2(k - 1));
    }
  }

  /** Position `p` is bit `p % 8` of byte `p / 8`. */
  lemma PositionIs(bytes: seq<byte>, p: nat)
    ensures Has(bytes, p) <==> p / 8 < |bytes| && BitOf(bytes[p / 8], p % 8)
  {
  }

  /** A gap is as many zero bytes as it says; spans stand for themselves. */
  lemma ItemsExpand(gap: nat, span: seq<byte>, rest: seq<Value>)
    ensures Expand([]) == []
    ensures Expand([Integer(gap)] + rest) == seq(gap, _ => 0) + Expand(rest)
    ensures Expand([Value.Bytes(span)] + rest) == span + Expand(rest)
  {
    assert ([Integer(gap)] + rest)[1..] == rest && ([Value.Bytes(span)] + rest)[1..] == rest;
  }

  /** A gap moves the offset on by as many bytes as it says, a span by its length; its bits count from eight times the offset. */
  lemma ItemsRead(gap: nat, span: seq<byte>, rest: seq<Value>, off: nat)
    requires off + gap < 0x1_0000_0000 && off + |span| < 0x1_0000_0000
    ensures SpanPositions([], off) == Some([])
    ensures SpanPositions([Integer(gap)] + rest, off) == SpanPositions(rest, off + gap)
    ensures SpanPositions([Value.Bytes(span)] + rest, off) ==
      Prepend(AllLow32(SetBits(span, off)), SpanPositions(rest, off + |span|))
  {
    hide AllLow32, SetBits, Prepend;
    GapRead(gap, rest, off);
    SpanRead(span, rest, off);
  }

  lemma GapRead(gap: nat, rest: seq<Value>, off: nat)
    requires off + gap < 0x1_0000_0000
    ensures SpanPositions([Integer(gap)] + rest, off) == SpanPositions(rest, off + gap)
  {
    hide AllLow32, SetBits, Prepend;
    var items := [Integer(gap)] + rest;
    assert items[0] == Integer(gap) && items[1..] == rest && Low32(off + Low32(gap)) == off + gap;
  }

  lemma SpanRead(span: seq<byte>, rest: seq<Value>, off: nat)
    requires off + |span| < 0x1_0000_0000
    ensures SpanPositions([Value.Bytes(span)] + rest, off) ==
      Prepend(AllLow32(SetBits(span, off)), SpanPositions(rest, off + |span|))
  {
    hide AllLow32, SetBits, Prepend;
    var items := [Value.Bytes(span)] + rest;
    assert items[0] == Value.Bytes(span) && items[1..] == rest && Low32(off + |span|) == off + |span|;
  }
}
