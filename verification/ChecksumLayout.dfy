// What the checksum bytes of a frame say to a receiver that knows nothing of the sender's code: the verification rule of
// RFC 1071 for the Internet checksum, the published check value for CRC-32, and the digits both are printed with.

module ChecksumLayout {
  import opened Bytes
  import opened Checksum

  // ---------------------------------------------------------------- the Internet checksum

  /** The sum of 16-bit words, high byte first; an odd last byte is the high half of a word. */
  function WordSum(fed: seq<byte>): nat {
    if fed == [] then 0
    else if |fed| == 1 then 256 * (fed[0] as nat)
    else 256 * (fed[0] as nat) + fed[1] + WordSum(fed[2..])
  }

  lemma {:induction false} WordSumAppend(fed: seq<byte>, b: byte)
    ensures WordSum(fed + [b]) == WordSum(fed) + (if |fed| % 2 != 0 then b as nat else 256 * (b as nat))
    decreases |fed|
  {
    if |fed| < 2 {
      assert |fed| == 1 ==> WordSum((fed + [b])[2..]) == 0;
    } else {
      WordSumAppend(fed[2..], b);
      assert (fed + [b])[2..] == fed[2..] + [b];
    }
  }

  lemma {:induction false} InetSumsWords(fed: seq<byte>)
    ensures InetSum(fed) == WordSum(fed)
    decreases |fed|
  {
    if fed != [] {
      var n := |fed| - 1;
      InetSumsWords(fed[..n]);
      WordSumAppend(fed[..n], fed[n]);
      assert fed[..n] + [fed[n]] == fed;
    }
  }

  /** The value of a lower-case hexadecimal digit. */
  function HexValue(b: byte): Option<nat> {
    if 0x30 <= b <= 0x39 then Some(b - 0x30) else if 0x61 <= b <= 0x66 then Some(b - 0x61 + 10) else None
  }

  /** What a string of hexadecimal digits denotes, most significant digit first. */
  function ReadHex(bs: seq<byte>): Option<nat> {
    if bs == [] then Some(0)
    else
      match ReadHex(bs[..|bs| - 1])
      case None => None
      case Some(high) => match HexValue(bs[|bs| - 1]) case None => None case Some(d) => Some(16 * high + d)
  }

  lemma HexDigitRead(nibble: nat)
    requires nibble < 16
    ensures HexValue(HexDigit(nibble)) == Some(nibble)
  {
  }

  lemma ReadHexSnoc(bs: seq<byte>, nibble: nat)
    requires nibble < 16 && ReadHex(bs).Some?
    ensures ReadHex(bs + [HexDigit(nibble)]) == Some(16 * ReadHex(bs).value + nibble)
  {
    HexDigitRead(nibble);
    assert (bs + [HexDigit(nibble)])[..|bs|] == bs;
  }

  lemma Hex4Read(v: u16)
    ensures ReadHex(Hex4(v)) == Some(v)
  {
    var a, b, c, d := v / 4096, v / 256 % 16, v / 16 % 16, v % 16;
    var s0 := [];
    var s1 := s0 + [HexDigit(a)];
    var s2 := s1 + [HexDigit(b)];
    var s3 := s2 + [HexDigit(c)];
    hide ReadHex, HexDigit;
    NoHex();
    ReadHexSnoc(s0, a);
    ReadHexSnoc(s1, b);
    ReadHexSnoc(s2, c);
    ReadHexSnoc(s3, d);
    assert s3 + [HexDigit(d)] == Hex4(v);
    NibblesRebuild(v);
  }

  lemma NoHex()
    ensures ReadHex([]) == Some(0)
  {
  }

  lemma HexDigitOnce(a: byte, b: byte)
    requires HexValue(a).Some? && HexValue(a) == HexValue(b)
    ensures a == b && HexValue(a).value < 16
  {
  }

  /** Digit strings of one length denote different numbers. */
  lemma {:induction false} ReadHexOnce(a: seq<byte>, b: seq<byte>)
    requires |a| == |b| && ReadHex(a).Some? && ReadHex(a) == ReadHex(b)
    ensures a == b
  {
    if a != [] {
      var n := |a| - 1;
      HexDigitOnce(a[n], a[n]);
      HexDigitOnce(b[n], b[n]);
      ReadHexOnce(a[..n], b[..n]);
      HexDigitOnce(a[n], b[n]);
      assert a[..n] + [a[n]] == a && b[..n] + [b[n]] == b;
    }
  }

  lemma {:induction false} HexBound(bs: seq<byte>)
    requires |bs| <= 4 && ReadHex(bs).Some?
    ensures ReadHex(bs).value <
      (if |bs| == 0 then 1 else if |bs| == 1 then 16 else if |bs| == 2 then 256 else if |bs| == 3 then 4096 else 0x1_0000)
  {
    if bs != [] {
      HexDigitOnce(bs[|bs| - 1], bs[|bs| - 1]);
      HexBound(bs[..|bs| - 1]);
    }
  }

  lemma SumsToOnes(sum: nat, folded: nat)
    requires folded <= 0xFFFF && folded % 0xFFFF == sum % 0xFFFF
    ensures (sum + (0xFFFF - folded)) % 0xFFFF == 0
  {
    ModShift(sum + 0xFFFF, sum % 0xFFFF + 0xFFFF, sum / 0xFFFF);
    if folded < 0xFFFF {
      ModShift(sum + (0xFFFF - folded), 0xFFFF, sum / 0xFFFF);
    } else {
      ModShift(sum, 0, sum / 0xFFFF);
    }
  }

  /**
   * The four bytes are a hexadecimal number of 16 bits that makes the one's-complement sum of all words a multiple of
   * 0xFFFF; it is `ffff` exactly when there is nothing to sum.
   */
  lemma InternetVerifies(fed: seq<byte>)
    requires |fed| <= 0xFFFF
    ensures var wire := WireForm(Internet, fed);
      |wire| == 4 && ReadHex(wire).Some? &&
      var c := ReadHex(wire).value;
      c <= 0xFFFF && (WordSum(fed) + c) % 0xFFFF == 0 && (c == 0xFFFF <==> WordSum(fed) == 0)
  {
    InetSumFitsU32(fed);
    FoldTwiceCongruent(InetSum(fed));
    InetSumsWords(fed);
    Hex4Read(0xFFFF - FoldTwice(InetSum(fed)));
    SumsToOnes(InetSum(fed), FoldTwice(InetSum(fed)));
  }

  /** No other four digits do, so the rule leaves the sender no choice. */
  lemma OnlyOneVerifies(fed: seq<byte>, c: nat)
    requires |fed| <= 0xFFFF && c <= 0xFFFF
    ensures ReadHex(WireForm(Internet, fed)) == Some(c) <==>
      (WordSum(fed) + c) % 0xFFFF == 0 && (c == 0xFFFF <==> WordSum(fed) == 0)
  {
    hide WordSum, ReadHex, WireForm;
    InternetVerifies(fed);
    SameRemainder(WordSum(fed), c, ReadHex(WireForm(Internet, fed)).value);
  }

  lemma SameRemainder(sum: nat, c: nat, d: nat)
    requires c <= 0xFFFF && d <= 0xFFFF && (sum + d) % 0xFFFF == 0 && (d == 0xFFFF <==> sum == 0)
    ensures c == d <==> (sum + c) % 0xFFFF == 0 && (c == 0xFFFF <==> sum == 0)
  {
    if (sum + c) % 0xFFFF == 0 { CloseMultiples(sum + c, sum + d); }
  }

  lemma CloseMultiples(a: nat, b: nat)
    requires a % 0xFFFF == 0 && b % 0xFFFF == 0 && -0xFFFF <= a - b <= 0xFFFF
    ensures a == b || a == b + 0xFFFF || b == a + 0xFFFF
  {
  }

  // ---------------------------------------------------------------- CRC-32

  /** Eight shifts, written out. */
  lemma EightShifts(x: bv32, n: nat)
    requires n == 8
    ensures CrcBits(x, n) == CrcBit(CrcBit(CrcBit(CrcBit(CrcBit(CrcBit(CrcBit(CrcBit(x))))))))
  {
    hide CrcBit;
    assert CrcBits(x, n) == CrcBits(CrcBit(CrcBit(x)), n - 2);
    assert CrcBits(CrcBit(CrcBit(x)), n - 2) == CrcBits(CrcBit(CrcBit(CrcBit(CrcBit(x)))), n - 4);
    assert CrcBits(CrcBit(CrcBit(CrcBit(CrcBit(x)))), n - 4) == CrcBits(CrcBit(CrcBit(CrcBit(CrcBit(CrcBit(CrcBit(x)))))), n - 6);
  }

  /** The register on from `c` by the byte that `low` stands for. */
  lemma FedByte(c: bv32, b: byte, low: bv32, next: bv32)
    requires IndexBits(b) == low
    requires CrcBit(CrcBit(CrcBit(CrcBit(CrcBit(CrcBit(CrcBit(CrcBit(c ^ low)))))))) == next
    ensures CrcFeed(c, b) == next
  {
    hide CrcBit, CrcBits, IndexBits;
    EightShifts(c ^ low, 8);
  }

  lemma Fed(fed: seq<byte>, b: byte, low: bv32, c: bv32, next: bv32)
    requires Crc32(fed) == c && IndexBits(b) == low
    requires CrcBit(CrcBit(CrcBit(CrcBit(CrcBit(CrcBit(CrcBit(CrcBit(c ^ low)))))))) == next
    ensures Crc32(fed + [b]) == next
  {
    hide Crc32, CrcBit, CrcFeed, IndexBits;
    Crc32Append(fed, b);
    FedByte(c, b, low, next);
  }

  /** The check value that CRC-32 is published with: "123456789" gives CBF43926. */
  lemma CheckValue()
    ensures Crc32([0x31, 0x32, 0x33, 0x34, 0x35, 0x36, 0x37, 0x38, 0x39]) ^ 0xFFFF_FFFF == 0xCBF4_3926
  {
    hide CrcFeed;
    var s: seq<byte> := [];
    Fed(s, 0x31, 0x31, 0xFFFF_FFFF, 0x7C23_1048);
    s := s + [0x31];
    Fed(s, 0x32, 0x32, 0x7C23_1048, 0xB0AC_BB32);
    s := s + [0x32];
    Fed(s, 0x33, 0x33, 0xB0AC_BB32, 0x77B7_9C2D);
    s := s + [0x33];
    Fed(s, 0x34, 0x34, 0x77B7_9C2D, 0x641C_1F5C);
    s := s + [0x34];
    Fed(s, 0x35, 0x35, 0x641C_1F5C, 0x340A_C5E3);
    s := s + [0x35];
    Fed(s, 0x36, 0x36, 0x340A_C5E3, 0xF68D_2C9E);
    s := s + [0x36];
    Fed(s, 0x37, 0x37, 0xF68D_2C9E, 0xAFFC_9660);
    s := s + [0x37];
    Fed(s, 0x38, 0x38, 0xAFFC_9660, 0x651F_2550);
    s := s + [0x38];
    Fed(s, 0x39, 0x39, 0x651F_2550, 0x340B_C6D9);
    s := s + [0x39];
    assert s == [0x31, 0x32, 0x33, 0x34, 0x35, 0x36, 0x37, 0x38, 0x39];
  }

  /** The alphabet, in rows of sixteen symbols. */
  const ALPHABET: seq<seq<byte>> := [
    [0x2F, 0x30, 0x31, 0x32, 0x33, 0x34, 0x35, 0x36, 0x37, 0x38, 0x39, 0x3F, 0x40, 0x41, 0x42, 0x43],
    [0x44, 0x45, 0x46, 0x47, 0x48, 0x49, 0x4A, 0x4B, 0x4C, 0x4D, 0x4E, 0x4F, 0x50, 0x51, 0x52, 0x53],
    [0x54, 0x55, 0x56, 0x57, 0x58, 0x59, 0x5A, 0x61, 0x62, 0x63, 0x64, 0x65, 0x66, 0x67, 0x68, 0x69],
    [0x6A, 0x6B, 0x6C, 0x6D, 0x6E, 0x6F, 0x70, 0x71, 0x72, 0x73, 0x74, 0x75, 0x76, 0x77, 0x78, 0x79],
    [0x7A, 0xBF, 0xC0, 0xC1, 0xC2, 0xC3, 0xC4, 0xC5, 0xC6, 0xC7, 0xC8, 0xC9, 0xCA, 0xCB, 0xCC, 0xCD],
    [0xCE, 0xCF, 0xD0, 0xD1, 0xD2, 0xD3, 0xD4, 0xD5, 0xD6, 0xD7, 0xD8, 0xD9, 0xDA, 0xDB, 0xDC, 0xDD],
    [0xDE, 0xDF, 0xE0, 0xE1, 0xE2, 0xE3, 0xE4, 0xE5, 0xE6, 0xE7, 0xE8, 0xE9, 0xEA, 0xEB, 0xEC, 0xED],
    [0xEE, 0xEF, 0xF0, 0xF1, 0xF2, 0xF3, 0xF4, 0xF5, 0xF6, 0xF7, 0xF8, 0xF9, 0xFA, 0xFB, 0xFC, 0xFD]]

  function Symbol(digit: nat): byte
    requires digit < 128
  {
    ALPHABET[digit / 16][digit % 16]
  }

  lemma Alphabet(digit: nat)
    requires digit < 128
    ensures BASE128_ENCODE[digit] == Symbol(digit)
  {
    assert BASE128_ENCODE[digit] == Base128Symbol(digit);
    InRow(digit / 16, digit % 16);
  }

  lemma InRow(r: nat, k: nat)
    requires r < 8 && k < 16
    ensures Base128Symbol(16 * r + k) == ALPHABET[r][k]
  {
    if r < 4 { InLowRow(r, k); } else { InHighRow(r, k); }
  }

  lemma InLowRow(r: nat, k: nat)
    requires r < 4 && k < 16
    ensures Base128Symbol(16 * r + k) == ALPHABET[r][k]
  {
  }

  lemma InHighRow(r: nat, k: nat)
    requires 4 <= r < 8 && k < 16
    ensures Base128Symbol(16 * r + k) == ALPHABET[r][k]
  {
  }

  lemma LastDigit(x: nat, p: nat, n: nat, rest: seq<nat>)
    requires n > 0 && p in {1, 0x80, 0x4000, 0x20_0000, 0x1000_0000} && rest == ToDigits(x / (128 * p), n - 1)
    ensures ToDigits(x / p, n) == rest + [x / p % 128]
  {
    assert x / p / 128 == x / (128 * p);
  }

  lemma FiveDigits(x: u32, n: nat)
    requires n == 5
    ensures ToDigits(x, n) == [x / 0x1000_0000, x / 0x20_0000 % 128, x / 0x4000 % 128, x / 128 % 128, x % 128]
  {
    NoDigits(x / 0x8_0000_0000);
    hide ToDigits;
    LastDigit(x, 0x1000_0000, n - 4, []);
    LastDigit(x, 0x20_0000, n - 3, [x / 0x1000_0000]);
    LastDigit(x, 0x4000, n - 2, [x / 0x1000_0000, x / 0x20_0000 % 128]);
    LastDigit(x, 0x80, n - 1, [x / 0x1000_0000, x / 0x20_0000 % 128, x / 0x4000 % 128]);
    LastDigit(x, 1, n, [x / 0x1000_0000, x / 0x20_0000 % 128, x / 0x4000 % 128, x / 128 % 128]);
  }

  lemma NoDigits(x: nat)
    ensures ToDigits(x, 0) == []
  {
  }

  /** A 32-bit value as five symbols: its base-128 digits, most significant first. */
  function FiveSymbols(x: u32): seq<byte> {
    [Symbol(x / 0x1000_0000), Symbol(x / 0x20_0000 % 128), Symbol(x / 0x4000 % 128), Symbol(x / 128 % 128), Symbol(x % 128)]
  }

  lemma SymbolsOf(x: u32)
    ensures Base128Wire(x) == FiveSymbols(x)
  {
    hide ToDigits, Symbol;
    FiveDigits(x, 5);
    Alphabet(x / 0x1000_0000);
    Alphabet(x / 0x20_0000 % 128);
    Alphabet(x / 0x4000 % 128);
    Alphabet(x / 128 % 128);
    Alphabet(x % 128);
  }

  /** What the CRC-32 form of any message is: the complemented register as five symbols. */
  lemma CrcWire(fed: seq<byte>)
    ensures WireForm(Crc32Type, fed) == FiveSymbols(Xor(Crc32(fed), 0xFFFF_FFFF) as int)
  {
    hide Crc32, Xor, FiveSymbols, Base128Wire;
    SymbolsOf(Xor(Crc32(fed), 0xFFFF_FFFF) as int);
  }

  lemma CheckNumber(c: bv32)
    requires c == 0xCBF4_3926
    ensures c as int == 0xCBF4_3926
  {
  }

  lemma CheckDigits(x: u32)
    requires x == 0xCBF4_3926
    ensures FiveSymbols(x) == [0x40, 0xDD, 0xCE, 0xF0, 0x5A]
  {
    assert x / 0x1000_0000 == 12 && x / 0x20_0000 % 128 == 95 && x / 0x4000 % 128 == 80;
    assert x / 128 % 128 == 114 && x % 128 == 38;
  }

  lemma CheckSymbols(fed: seq<byte>, c: bv32)
    requires Xor(Crc32(fed), 0xFFFF_FFFF) == c && c == 0xCBF4_3926
    ensures WireForm(Crc32Type, fed) == [0x40, 0xDD, 0xCE, 0xF0, 0x5A]
  {
    hide WireForm, Crc32, Xor, FiveSymbols;
    CrcWire(fed);
    CheckNumber(c);
    CheckDigits(c as int);
  }

  /** On the wire, the check value's digits are 12, 95, 80, 114 and 38. */
  lemma CheckWire()
    ensures WireForm(Crc32Type, [0x31, 0x32, 0x33, 0x34, 0x35, 0x36, 0x37, 0x38, 0x39]) == [0x40, 0xDD, 0xCE, 0xF0, 0x5A]
  {
    hide WireForm, Crc32;
    CheckValue();
    CheckSymbols([0x31, 0x32, 0x33, 0x34, 0x35, 0x36, 0x37, 0x38, 0x39], 0xCBF4_3926);
  }

  /** The mark that asks for no check is four zero digits, and there is none for CRC-32. */
  lemma SentinelIs(t: ChecksumType, wire: seq<byte>)
    requires |wire| == EncodedLen(t)
    ensures |wire| == if t == Internet then 4 else 5
    ensures IsIgnoreSentinel(t, wire) <==> wire == [0x30, 0x30, 0x30, 0x30]
  {
  }
}
