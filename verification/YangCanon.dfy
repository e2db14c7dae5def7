// The spellings that reading and writing give back, as conditions on the text: decimal numbers, base64 and bit names.

module YangCanon {
  import opened Bytes
  import opened YangText

  // ---------------------------------------------------------------- decimal numbers

  /** Digits without a superfluous zero in front. */
  predicate PlainNumber(s: string) {
    AllDigits(s) && (s[0] != '0' || |s| == 1)
  }

  /** A plain number, or a minus in front of one that is not zero. */
  predicate CanonNumber(s: string) {
    PlainNumber(s) || (s != "" && s[0] == '-' && PlainNumber(s[1..]) && s[1..] != "0")
  }

  lemma {:induction false} DigitBack(c: char)
    requires IsDigit(c)
    ensures DigitValue(c) < 10 && DigitOf(DigitValue(c)) == c && (DigitValue(c) == 0 <==> c == '0')
  {
  }

  lemma {:induction false} PositiveValue(s: string)
    requires AllDigits(s) && s[0] != '0'
    ensures DigitsValue(s) > 0
    decreases |s|
  {
    DigitBack(s[|s| - 1]);
    if |s| > 1 { PositiveValue(s[..|s| - 1]); }
  }

  lemma {:induction false} ValuePrint(s: string)
    requires PlainNumber(s)
    ensures PrintNat(DigitsValue(s)) == s
    decreases |s|
  {
    var front, last := s[..|s| - 1], s[|s| - 1];
    DigitBack(last);
    assert s == front + [last];
    if |s| > 1 {
      PositiveValue(front);
      ValuePrint(front);
      assert DigitsValue(s) == 10 * DigitsValue(front) + DigitValue(last);
    } else {
      assert front == "" && DigitsValue(s) == DigitValue(last);
    }
  }

  lemma {:induction false} PrintIsPlain(n: nat)
    ensures PlainNumber(PrintNat(n)) && (PrintNat(n)[0] == '0' <==> n == 0)
    decreases n
  {
    if n >= 10 {
      PrintIsPlain(n / 10);
      assert PrintNat(n)[0] == PrintNat(n / 10)[0];
    }
  }

  lemma {:induction false} PrintIsCanon(n: int)
    ensures CanonNumber(Print(n))
  {
    if n < 0 {
      PrintIsPlain(-n);
      assert Print(n)[1..] == PrintNat(-n);
    } else {
      PrintIsPlain(n);
    }
  }

  /** Of the texts that denote a number, printing gives back exactly the canonical one. */
  lemma {:induction false} NumberExactly(s: string, lo: int, hi: int)
    requires ParseInt(s, lo, hi).Some?
    ensures Print(ParseInt(s, lo, hi).value) == s <==> CanonNumber(s)
  {
    var n := ParseInt(s, lo, hi).value;
    PrintIsCanon(n);
    if CanonNumber(s) {
      if PlainNumber(s) {
        ValuePrint(s);
      } else {
        ValuePrint(s[1..]);
        PositiveValue(s[1..]);
        assert s == "-" + s[1..];
      }
    }
  }

  // ---------------------------------------------------------------- base64

  predicate InAlphabet(c: char) {
    B64Val(c).Some?
  }

  function ValueOf(c: char): nat {
    match B64Val(c) case Some(v) => v case None => 0
  }

  /** Four characters of the alphabet; the last four may be padded, the bits that padding leaves over being zero. */
  predicate CanonQuad(q: string, last: bool)
    requires |q| == 4
  {
    && InAlphabet(q[0]) && InAlphabet(q[1])
    && if InAlphabet(q[3]) then InAlphabet(q[2])
       else
         && last && q[3] == '='
         && if InAlphabet(q[2]) then ValueOf(q[2]) % 4 == 0 else q[2] == '=' && ValueOf(q[1]) % 16 == 0
  }

  predicate CanonBase64(s: string) {
    s == "" || (|s| >= 4 && CanonQuad(s[..4], |s| == 4) && CanonBase64(s[4..]))
  }

  lemma {:induction false} CharBack(c: char)
    requires InAlphabet(c)
    ensures ValueOf(c) < 64 && B64Char(ValueOf(c)) == c && !Skipped(c)
  {
  }

  /** The values of a canonical quad, without its padding. */
  function QuadVals(q: string): seq<nat>
    requires |q| == 4
  {
    [ValueOf(q[0]), ValueOf(q[1])]
    + (if InAlphabet(q[2]) then [ValueOf(q[2])] else []) + (if InAlphabet(q[3]) then [ValueOf(q[3])] else [])
  }

  lemma {:induction false} QuadCleans(q: string, last: bool)
    requires |q| == 4 && CanonQuad(q, last)
    ensures Vals(Clean(q)) == Some(QuadVals(q)) && |Clean(q)| == |QuadVals(q)|
    ensures |Clean(q)| == 4 || last
  {
    var a, b, c, d := ValueOf(q[0]), ValueOf(q[1]), ValueOf(q[2]), ValueOf(q[3]);
    CharBack(q[0]);
    CharBack(q[1]);
    if InAlphabet(q[2]) { CharBack(q[2]); }
    if InAlphabet(q[3]) { CharBack(q[3]); }
    CleanFour(q[0], q[1], q[2], q[3]);
    assert q == [q[0], q[1], q[2], q[3]];
    ValsOfFour(a, b, if c < 64 then c else 0, if d < 64 then d else 0);
    if InAlphabet(q[3]) {
      assert Clean(q) == [B64Char(a), B64Char(b), B64Char(c), B64Char(d)];
      assert QuadVals(q) == [a, b, c, d];
    } else if InAlphabet(q[2]) {
      assert Clean(q) == [B64Char(a), B64Char(b), B64Char(c)];
      assert QuadVals(q) == [a, b, c];
    } else {
      assert Clean(q) == [B64Char(a), B64Char(b)];
      assert QuadVals(q) == [a, b];
    }
  }

  lemma {:induction false} JoinedSextets(a: nat, b: nat, c: nat, d: nat, n: nat)
    requires a < 64 && b < 64 && c < 64 && d < 64 && n == 0x4_0000 * a + 0x1000 * b + 64 * c + d
    ensures Sextet(n, 0) == a && Sextet(n, 1) == b && Sextet(n, 2) == c && Sextet(n, 3) == d
    ensures n < 0x100_0000
  {
    assert n / 64 == 0x1000 * a + 64 * b + c;
    assert n / 0x1000 == 64 * a + b;
  }

  lemma {:induction false} BytesJoin(n: nat)
    requires n < 0x100_0000
    ensures 0x1_0000 * (n / 0x1_0000 % 256) + 0x100 * (n / 0x100 % 256) + n % 256 == n
  {
    assert n / 0x100 / 0x100 == n / 0x1_0000;
  }

  /** Writing what a canonical quad denotes gives the quad. */
  lemma {:induction false} QuadBack(q: string, last: bool)
    requires |q| == 4 && CanonQuad(q, last)
    ensures EncodeChunk(DecodeChunk(QuadVals(q))) == q
  {
    var a, b, c, d := ValueOf(q[0]), ValueOf(q[1]), ValueOf(q[2]), ValueOf(q[3]);
    CharBack(q[0]);
    CharBack(q[1]);
    if InAlphabet(q[2]) { CharBack(q[2]); }
    if InAlphabet(q[3]) { CharBack(q[3]); }
    var vs := QuadVals(q);
    var n := Joined(vs);
    JoinedSextets(a, b, c, d, n);
    BytesJoin(n);
    SpareBits(a, b, c, d, n);
    assert Group(DecodeChunk(vs)) == n;
    assert q == [q[0], q[1], q[2], q[3]];
  }

  lemma {:induction false} SpareBits(a: nat, b: nat, c: nat, d: nat, n: nat)
    requires a < 64 && b < 64 && c < 64 && d < 64 && n == 0x4_0000 * a + 0x1000 * b + 64 * c + d
    ensures d == 0 && c % 4 == 0 ==> n % 256 == 0
    ensures d == 0 && c == 0 && b % 16 == 0 ==> n % 256 == 0 && n / 0x100 % 256 == 0
  {
    if d == 0 && c % 4 == 0 {
      assert n == 256 * (0x400 * a + 16 * b + c / 4);
      if c == 0 && b % 16 == 0 { assert n / 0x100 == 256 * (4 * a + b / 16); }
    }
  }

  /** A canonical text is accepted, and writing what it denotes gives it back. */
  lemma {:induction false} CanonBack(s: string)
    requires CanonBase64(s)
    ensures Base64Decode(s).Some? && Base64Encode(Base64Decode(s).value) == s
    decreases |s|
  {
    if s != "" {
      var q, t := s[..4], s[4..];
      CanonBack(t);
      QuadCleans(q, |s| == 4);
      QuadBack(q, |s| == 4);
      CleanConcat(q, t);
      assert s == q + t;
      var chunk, rest := DecodeChunk(QuadVals(q)), Base64Decode(t).value;
      if t == "" { assert Clean(t) == "" && Clean(q) + "" == Clean(q); }
      assert Take4(Clean(q) + Clean(t)) == Clean(q) && (Clean(q) + Clean(t))[|Clean(q)|..] == Clean(t);
      assert Base64Decode(s) == Some(chunk + rest);
      assert Take3(chunk + rest) == chunk && (chunk + rest)[|chunk|..] == rest;
    }
  }

  lemma {:induction false} CharThere(v: nat)
    requires v < 64
    ensures InAlphabet(B64Char(v)) && ValueOf(B64Char(v)) == v
  {
    B64Inverse(v);
  }

  lemma SpareOne(a: nat)
    requires a < 0x100
    ensures Sextet(0x1_0000 * a, 1) % 16 == 0
  {
    assert 0x1_0000 * a / 0x1000 == 16 * a;
  }

  lemma SpareTwo(a: nat)
    requires a < 0x1_0000
    ensures Sextet(0x100 * a, 2) % 4 == 0
  {
    assert 0x100 * a / 64 == 4 * a;
  }

  /** The bits left over by padding are zero. */
  lemma {:induction false} SpareZero(chunk: seq<byte>, n: nat)
    requires 1 <= |chunk| <= 2 && n == Group(chunk)
    ensures |chunk| == 1 ==> Sextet(n, 1) % 16 == 0
    ensures |chunk| == 2 ==> Sextet(n, 2) % 4 == 0
  {
    if |chunk| == 1 {
      assert n == 0x1_0000 * (chunk[0] as int);
      SpareOne(chunk[0]);
    } else {
      assert n == 0x100 * (0x100 * (chunk[0] as int) + chunk[1]);
      SpareTwo(0x100 * (chunk[0] as int) + chunk[1]);
    }
  }

  lemma {:induction false} ChunkIsCanon(chunk: seq<byte>, last: bool)
    requires 1 <= |chunk| <= 3 && (|chunk| == 3 || last)
    ensures CanonQuad(EncodeChunk(chunk), last)
  {
    var n := Group(chunk);
    CharThere(Sextet(n, 0));
    CharThere(Sextet(n, 1));
    CharThere(Sextet(n, 2));
    CharThere(Sextet(n, 3));
    assert !InAlphabet('=');
    if |chunk| < 3 { SpareZero(chunk, n); }
  }

  lemma {:induction false} EncodeIsCanon(data: seq<byte>)
    ensures CanonBase64(Base64Encode(data))
    decreases |data|
  {
    if data != [] {
      var chunk := Take3(data);
      var rest := data[|chunk|..];
      EncodeIsCanon(rest);
      ChunkIsCanon(chunk, rest == []);
      var s, t := Base64Encode(data), Base64Encode(rest);
      assert s[..4] == EncodeChunk(chunk) && s[4..] == t;
      if rest != [] { assert |t| >= 4; }
    }
  }

  /** Of the texts that denote bytes, writing gives back exactly the canonical one. */
  lemma {:induction false} Base64Exactly(s: string)
    requires Base64Decode(s).Some?
    ensures Base64Encode(Base64Decode(s).value) == s <==> CanonBase64(s)
  {
    EncodeIsCanon(Base64Decode(s).value);
    if CanonBase64(s) { CanonBack(s); }
  }

  // ---------------------------------------------------------------- words

  /** Single blanks between words, and none around them. */
  predicate SingleBlanks(s: string) {
    forall i :: 0 <= i < |s| && IsSpace(s[i]) ==> s[i] == ' ' && 0 < i && i + 1 < |s| && !IsSpace(s[i + 1])
  }

  /** A text that goes on behind its first word has one blank there, and goes on with single blanks. */
  lemma {:induction false} BlankBehind(s: string, n: nat)
    requires SingleBlanks(s) && 0 < n < |s| && IsSpace(s[n])
    ensures s[n] == ' ' && n + 1 < |s| && !IsSpace(s[n + 1]) && SingleBlanks(s[n + 1..])
  {
    var t := s[n + 1..];
    forall i | 0 <= i < |t| && IsSpace(t[i]) ensures t[i] == ' ' && 0 < i && i + 1 < |t| && !IsSpace(t[i + 1]) {
      assert t[i] == s[n + 1 + i];
    }
  }

  lemma {:induction false} WordsOfRest(s: string, n: nat)
    requires n < |s| && IsSpace(s[n])
    ensures Words(s[n..]) == Words(s[n + 1..])
  {
    assert s[n..][0] == s[n] && s[n..][1..] == s[n + 1..];
  }

  lemma {:induction false} BlanksBack(s: string)
    requires SingleBlanks(s)
    ensures Join(Words(s)) == s && (s != "" ==> Words(s) != [])
    decreases |s|
  {
    if s != "" {
      assert !IsSpace(s[0]);
      var n := WordLen(s);
      assert n > 0;
      if n == |s| {
        assert s[n..] == "" && s[..n] == s && [s] + [] == [s];
      } else {
        BlankBehind(s, n);
        WordsOfRest(s, n);
        var t := s[n + 1..];
        BlanksBack(t);
        assert ([s[..n]] + Words(t))[1..] == Words(t);
        assert s == s[..n] + " " + t;
      }
    }
  }

  lemma {:induction false} WordsAreWords(s: string)
    ensures AreWords(Words(s))
    decreases |s|
  {
    if s != "" {
      if IsSpace(s[0]) {
        WordsAreWords(s[1..]);
      } else {
        WordsAreWords(s[WordLen(s)..]);
      }
    }
  }

  lemma {:induction false} OneBlank(w: string, t: string)
    requires w != "" && NoSpace(w) && SingleBlanks(t) && t != "" && !IsSpace(t[0])
    ensures SingleBlanks(w + " " + t)
  {
    var s := w + " " + t;
    assert forall i :: 0 <= i < |w| ==> s[i] == w[i];
    assert forall k :: 0 <= k < |t| ==> s[|w| + 1 + k] == t[k];
    forall i | |w| <= i < |s| && IsSpace(s[i]) ensures s[i] == ' ' && i + 1 < |s| && !IsSpace(s[i + 1]) {
      if i == |w| {
        assert s[i + 1] == t[0];
      } else {
        var k := i - |w| - 1;
        assert s[i] == t[k];
        assert s[i + 1] == t[k + 1];
      }
    }
  }

  lemma {:induction false} JoinIsSpaced(words: seq<string>)
    requires AreWords(words)
    ensures SingleBlanks(Join(words)) && (words != [] ==> Join(words) != "" && !IsSpace(Join(words)[0]))
    decreases |words|
  {
    if |words| > 1 {
      JoinIsSpaced(words[1..]);
      OneBlank(words[0], Join(words[1..]));
    }
  }

  /** Splitting into words and joining them again gives back exactly the texts with single blanks. */
  lemma {:induction false} BlanksExactly(s: string)
    ensures Join(Words(s)) == s <==> SingleBlanks(s)
  {
    WordsAreWords(s);
    JoinIsSpaced(Words(s));
    if SingleBlanks(s) { BlanksBack(s); }
  }
}
