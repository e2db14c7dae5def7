// MUP1 frame checksums: mup1/src/checksum.rs.
//
// The specification side (`InetSum`, `Crc32`, `WireForm`) is defined on the whole byte
// sequence that was fed; class `Running` is the incremental, table-driven implementation.

module Checksum {
  import opened Bytes

  datatype ChecksumType = Internet | Crc32Type

  function EncodedLen(t: ChecksumType): nat {
    match t case Internet => 4 case Crc32Type => 5
  }

  // ---------------------------------------------------------------- Internet checksum

  /** The one's-complement sum before folding: even positions land in the high half. */
  function InetSum(fed: seq<byte>): nat {
    if fed == [] then 0
    else
      var n := |fed| - 1;
      InetSum(fed[..n]) + (if n % 2 != 0 then fed[n] else 256 * fed[n] as int)
  }

  lemma {:induction false} InetSumBound(fed: seq<byte>)
    ensures InetSum(fed) <= 0xFF00 * |fed|
  {
    if fed != [] {
      InetSumBound(fed[..|fed| - 1]);
    }
  }

  /** `pos` is a u16, so at most 65535 bytes are ever fed; the u32 accumulator never overflows. */
  lemma InetSumFitsU32(fed: seq<byte>)
    requires |fed| <= 0xFFFF
    ensures InetSum(fed) < 0x1_0000_0000
  {
    InetSumBound(fed);
  }

  /** Two carry folds, before the complement. */
  function FoldTwice(acc: u32): nat {
    var once := acc / 0x1_0000 + acc % 0x1_0000;
    once / 0x1_0000 + once % 0x1_0000
  }

  lemma FoldTwiceCongruent(acc: u32)
    ensures FoldTwice(acc) <= 0xFFFF
    ensures FoldTwice(acc) % 0xFFFF == acc % 0xFFFF
    ensures FoldTwice(acc) == 0 <==> acc == 0
  {
    var once := acc / 0x1_0000 + acc % 0x1_0000;
    ModShift(acc, once, acc / 0x1_0000);
    ModShift(once, FoldTwice(acc), once / 0x1_0000);
  }

  lemma ModShift(a: nat, b: nat, k: nat)
    requires a == b + 0xFFFF * k
    ensures a % 0xFFFF == b % 0xFFFF
  {
    if k > 0 {
      ModShift(a - 0xFFFF, b, k - 1);
    }
  }

  function HexDigit(nibble: nat): byte
    requires nibble < 16
  {
    if nibble < 10 then 0x30 + nibble else 0x61 + nibble - 10
  }

  function Hex4(v: u16): (r: seq<byte>)
    ensures |r| == 4
  {
    [HexDigit(v / 4096), HexDigit(v / 256 % 16), HexDigit(v / 16 % 16), HexDigit(v % 16)]
  }

  lemma HexDigitInjective(a: nat, b: nat)
    requires a < 16 && b < 16
    requires HexDigit(a) == HexDigit(b)
    ensures a == b
  {
  }

  lemma NibblesRebuild(v: u16)
    ensures v == v / 4096 * 4096 + v / 256 % 16 * 256 + v / 16 % 16 * 16 + v % 16
  {
    assert v / 256 / 16 == v / 4096;
    assert v / 16 / 16 == v / 256;
  }

  lemma Hex4Injective(v: u16, w: u16)
    requires Hex4(v) == Hex4(w)
    ensures v == w
  {
    var a, b := Hex4(v), Hex4(w);
    assert a[0] == b[0] && a[1] == b[1] && a[2] == b[2] && a[3] == b[3];
    HexDigitInjective(v / 4096, w / 4096);
    HexDigitInjective(v / 256 % 16, w / 256 % 16);
    HexDigitInjective(v / 16 % 16, w / 16 % 16);
    HexDigitInjective(v % 16, w % 16);
    NibblesRebuild(v);
    NibblesRebuild(w);
  }

  // ---------------------------------------------------------------- CRC-32, bit at a time

  /** One step of the reflected CRC-32 shift register. */
  function CrcBit(c: bv32): bv32 {
    if c & 1 != 0 then 0xEDB8_8320 ^ (c >> 1) else c >> 1
  }

  function Iterate<T>(f: T -> T, x: T, n: nat): T
    decreases n
  {
    if n == 0 then x else Iterate(f, f(x), n - 1)
  }

  function CrcBits(c: bv32, n: nat): bv32 {
    Iterate(CrcBit, c, n)
  }

  function Xor(a: bv32, b: bv32): bv32 {
    a ^ b
  }

  function IndexBits(i: nat): bv32
    requires i < 256
  {
    i as bv32
  }

  /** Shift one byte into the register, bit by bit. */
  function CrcFeed(crc: bv32, b: byte): bv32 {
    CrcBits(Xor(crc, IndexBits(b)), 8)
  }

  /** The register after shifting in `fed` one bit at a time, starting from all ones. */
  function Crc32(fed: seq<byte>): bv32 {
    if fed == [] then 0xFFFF_FFFF
    else CrcFeed(Crc32(fed[..|fed| - 1]), fed[|fed| - 1])
  }

  const CRC32_TABLE: seq<bv32> := seq(256, i requires 0 <= i < 256 => CrcBits(IndexBits(i), 8))

  /** One table entry as the source computes it: eight shifts of the index. */
  method TableEntry(i: nat) returns (c: bv32)
    requires i < 256
    ensures c == CRC32_TABLE[i]
  {
    c := i as bv32;
    var j := 0;
    while j < 8
      invariant 0 <= j <= 8
      invariant CrcBits(c, 8 - j) == CrcBits(IndexBits(i), 8)
    {
      c := CrcBit(c);
      j := j + 1;
    }
  }

  method BuildCrc32Table() returns (table: array<bv32>)
    ensures fresh(table) && table[..] == CRC32_TABLE
  {
    table := new bv32[256];
    var i := 0;
    while i < 256
      invariant 0 <= i <= 256
      invariant table[..i] == CRC32_TABLE[..i]
    {
      var c := TableEntry(i);
      table[i] := c;
      PrefixGrows(table[..], i);
      PrefixGrows(CRC32_TABLE, i);
      i := i + 1;
    }
  }

  lemma PrefixGrows<T>(s: seq<T>, i: nat)
    requires i < |s|
    ensures s[..i + 1] == s[..i] + [s[i]]
  {
  }

  lemma ShiftXor(a: bv32, b: bv32)
    ensures (a ^ b) >> 1 == (a >> 1) ^ (b >> 1)
    ensures (a ^ b) & 1 == (a & 1) ^ (b & 1)
    ensures a & 1 == 0 || a & 1 == 1
  {
  }

  lemma XorRegroup(p: bv32, a: bv32, b: bv32)
    ensures (p ^ a) ^ (p ^ b) == a ^ b
    ensures (p ^ a) ^ b == p ^ (a ^ b) == a ^ (p ^ b)
  {
  }

  lemma CrcBitLinear(a: bv32, b: bv32)
    ensures CrcBit(a ^ b) == CrcBit(a) ^ CrcBit(b)
  {
    ShiftXor(a, b);
    ShiftXor(b, a);
    XorRegroup(0xEDB8_8320, a >> 1, b >> 1);
  }

  /** The shift register is linear over exclusive-or. */
  lemma {:induction false} CrcBitsLinear(a: bv32, b: bv32, n: nat)
    ensures CrcBits(Xor(a, b), n) == Xor(CrcBits(a, n), CrcBits(b, n))
    decreases n
  {
    if n > 0 {
      CrcBitLinear(a, b);
      CrcBitsLinear(CrcBit(a), CrcBit(b), n - 1);
    }
  }

  /** A register whose low `n` bits are clear is merely shifted by `n` steps. */
  lemma CrcBitClear(h: bv32)
    requires h & 0xFF == 0
    ensures CrcBits(h, 8) == h >> 8
  {
    assert CrcBit(h) == h >> 1;
    assert CrcBit(h >> 1) == h >> 2;
    assert CrcBit(h >> 2) == h >> 3;
    assert CrcBit(h >> 3) == h >> 4;
    assert CrcBit(h >> 4) == h >> 5;
    assert CrcBit(h >> 5) == h >> 6;
    assert CrcBit(h >> 6) == h >> 7;
    assert CrcBit(h >> 7) == h >> 8;
    assert CrcBits(h, 8) == CrcBits(h >> 2, 6) == CrcBits(h >> 4, 4);
    assert CrcBits(h >> 4, 4) == CrcBits(h >> 6, 2) == CrcBits(h >> 8, 0);
  }

  lemma SplitLowByte(x: bv32)
    ensures x == (x & 0xFFFF_FF00) ^ (x & 0xFF)
    ensures (x & 0xFFFF_FF00) & 0xFF == 0
    ensures (x & 0xFFFF_FF00) >> 8 == x >> 8
    ensures x & 0xFF <= 0xFF
  {
  }

  lemma LowByteAsIndex(low: bv32)
    requires low <= 0xFF
    ensures 0 <= low as int < 256
  {
  }

  lemma IndexBitsBack(low: bv32)
    requires 0 <= low as int < 256
    ensures IndexBits(low as int) == low
  {
  }

  function LowByte(x: bv32): int {
    (x & 0xFF) as int
  }

  /** The table-driven step equals eight single-bit steps on every register value. */
  lemma TableStepIsBitwise(x: bv32)
    ensures 0 <= LowByte(x) < 256
    ensures Xor(x >> 8, CRC32_TABLE[LowByte(x)]) == CrcBits(x, 8)
  {
    var high, low := x & 0xFFFF_FF00, x & 0xFF;
    SplitLowByte(x);
    CrcBitsLinear(high, low, 8);
    CrcBitClear(high);
    LowByteAsIndex(low);
    IndexBitsBack(low);
  }

  /** Shift one byte into the register with a single table look-up. */
  method TableStep(crc: bv32, b: byte) returns (next: bv32)
    ensures next == CrcFeed(crc, b)
  {
    var x := Xor(crc, IndexBits(b));
    TableStepIsBitwise(x);
    next := Xor(x >> 8, CRC32_TABLE[LowByte(x)]);
  }

  // ---------------------------------------------------------------- single bytes and the register

  /** A byte as the low bits of a register. */
  lemma {:induction false} LowBits(n: nat) returns (low: bv32)
    requires n < 256
    ensures low as int == n
  {
    low := 0;
    if n > 0 {
      var before := LowBits(n - 1);
      OneMoreLow(before);
      low := before + 1;
    }
  }

  lemma OneMoreLow(low: bv32)
    requires low as int < 255
    ensures (low + 1) as int == low as int + 1
  {
  }

  lemma RegisterBack(a: bv32)
    ensures (a as int) as bv32 == a
  {
  }

  lemma ByteInjective(x: byte, y: byte)
    requires IndexBits(x) == IndexBits(y)
    ensures x == y
  {
    var a := LowBits(x);
    var b := LowBits(y);
    RegisterBack(a);
    RegisterBack(b);
  }

  lemma CrcBitInjective(a: bv32, b: bv32)
    requires CrcBit(a) == CrcBit(b)
    ensures a == b
  {
  }

  lemma {:induction false} CrcBitsInjective(a: bv32, b: bv32, n: nat)
    requires CrcBits(a, n) == CrcBits(b, n)
    ensures a == b
    decreases n
  {
    if n > 0 {
      CrcBitsInjective(CrcBit(a), CrcBit(b), n - 1);
      CrcBitInjective(a, b);
    }
  }

  lemma XorInjective(a: bv32, b: bv32, c: bv32)
    ensures Xor(a, c) == Xor(b, c) ==> a == b
    ensures Xor(c, a) == Xor(c, b) ==> a == b
  {
  }

  lemma FeedInjective(c: bv32, d: bv32, x: byte, y: byte, n: nat)
    requires n == 8 && CrcBits(Xor(c, IndexBits(x)), n) == CrcBits(Xor(d, IndexBits(y)), n)
    ensures c == d ==> x == y
    ensures x == y ==> c == d
  {
    hide CrcBits, IndexBits, Xor;
    CrcBitsInjective(Xor(c, IndexBits(x)), Xor(d, IndexBits(y)), n);
    XorInjective(c, d, IndexBits(x));
    XorInjective(IndexBits(x), IndexBits(y), c);
    if c == d { ByteInjective(x, y); }
  }

  lemma FeedSeparates(c: bv32, d: bv32, x: byte, y: byte)
    requires (c == d) != (x == y)
    ensures CrcFeed(c, x) != CrcFeed(d, y)
  {
    hide CrcBits, IndexBits, Xor;
    var n := 8;
    if CrcBits(Xor(c, IndexBits(x)), n) == CrcBits(Xor(d, IndexBits(y)), n) { FeedInjective(c, d, x, y, n); }
  }

  /** What takes a register on by one byte keeps different registers apart, and different bytes. */
  ghost predicate Separates<T(!new)>(feed: (T, byte) -> T) {
    forall c, d, x, y :: (c == d) != (x == y) ==> feed(c, x) != feed(d, y)
  }

  ghost predicate ByBytes<T>(sum: seq<byte> -> T, feed: (T, byte) -> T) {
    forall s {:trigger sum(s)} :: s != [] ==> sum(s) == feed(sum(s[..|s| - 1]), s[|s| - 1])
  }

  /** Then changing any one byte, at any distance from the end, changes the result. */
  lemma {:induction false} SubstitutionShows<T(!new)>(sum: seq<byte> -> T, feed: (T, byte) -> T, fed: seq<byte>, i: nat, b: byte)
    requires Separates(feed) && ByBytes(sum, feed) && i < |fed| && b != fed[i]
    ensures sum(fed[i := b]) != sum(fed)
    decreases |fed|
  {
    var n := |fed| - 1;
    var sub := fed[i := b];
    if i == n {
      assert sub[..n] == fed[..n];
    } else {
      assert sub[..n] == fed[..n][i := b];
      SubstitutionShows(sum, feed, fed[..n], i, b);
    }
  }

  lemma CrcSubstitution(fed: seq<byte>, i: nat, b: byte)
    requires i < |fed| && b != fed[i]
    ensures Crc32(fed[i := b]) != Crc32(fed)
  {
    assert Separates(CrcFeed) by {
      forall c, d, x, y | (c == d) != (x == y) ensures CrcFeed(c, x) != CrcFeed(d, y) { FeedSeparates(c, d, x, y); }
    }
    SubstitutionShows(Crc32, CrcFeed, fed, i, b);
  }

  // ---------------------------------------------------------------- base-128 digits

  /** The 128-symbol alphabet: five runs of bytes that skip every MUP1 control byte. */
  const BASE128_ENCODE: seq<byte> :=
    seq(128, i requires 0 <= i < 128 => Base128Symbol(i))

  function Base128Symbol(i: nat): byte
    requires i < 128
  {
    if i == 0 then 0x2F
    else if i <= 10 then 0x30 + (i - 1)
    else if i <= 38 then 0x3F + (i - 11)
    else if i <= 64 then 0x61 + (i - 39)
    else 0xBF + (i - 65)
  }

  ghost predicate Digits128(ds: seq<nat>) {
    forall i :: 0 <= i < |ds| ==> ds[i] < 128
  }

  /** The `n` low base-128 digits of `x`, most significant first. */
  ghost function ToDigits(x: nat, n: nat): (ds: seq<nat>)
    ensures |ds| == n && Digits128(ds)
    decreases n
  {
    if n == 0 then [] else ToDigits(x / 128, n - 1) + [x % 128]
  }

  ghost function FromDigits(ds: seq<nat>): nat {
    if ds == [] then 0 else FromDigits(ds[..|ds| - 1]) * 128 + ds[|ds| - 1]
  }

  ghost function Symbols(ds: seq<nat>): (r: seq<byte>)
    requires Digits128(ds)
    ensures |r| == |ds|
  {
    seq(|ds|, i requires 0 <= i < |ds| => BASE128_ENCODE[ds[i]])
  }

  /** The five-byte wire form of a 32-bit value. */
  ghost function Base128Wire(x: u32): (r: seq<byte>)
    ensures |r| == 5
  {
    Symbols(ToDigits(x, 5))
  }

  /** What five symbols denote; the decoder's u32 register keeps only the low 32 bits. */
  ghost predicate Base128Denotes(encoded: seq<byte>, x: u32) {
    exists ds: seq<nat> :: Spells(encoded, ds) && x == Register(ds)
  }

  /** The digits that five symbols stand for. */
  ghost predicate Spells(encoded: seq<byte>, ds: seq<nat>) {
    |ds| == 5 && Digits128(ds) && encoded == Symbols(ds)
  }

  ghost function Register(ds: seq<nat>): u32 {
    FromDigits(ds) % 0x1_0000_0000
  }

  /** The register with room made for the next digit. */
  ghost function Shifted(ds: seq<nat>): u32 {
    FromDigits(ds) * 128 % 0x1_0000_0000
  }

  lemma SpelledOnce(encoded: seq<byte>, ds: seq<nat>, es: seq<nat>)
    requires Spells(encoded, ds) && Spells(encoded, es)
    ensures ds == es
  {
    SymbolsInjective(ds, es);
  }

  lemma DigitsDenote(encoded: seq<byte>, ds: seq<nat>, y: u32)
    requires Spells(encoded, ds)
    ensures Base128Denotes(encoded, y) <==> y == Register(ds)
  {
    forall es | Spells(encoded, es) ensures es == ds { SpelledOnce(encoded, ds, es); }
  }

  lemma SymbolsAppend(ds: seq<nat>, d: nat)
    requires Digits128(ds) && d < 128
    ensures Symbols(ds + [d]) == Symbols(ds) + [BASE128_ENCODE[d]]
  {
  }

  /** Split a 32-bit value into five 7-bit digits, last digit first. */
  method SplitDigits(x: u32) returns (digits: array<nat>)
    ensures fresh(digits) && digits[..] == ToDigits(x, 5)
  {
    digits := new nat[5];
    var v: nat := x;
    var i := 5;
    while i > 0
      invariant 0 <= i <= 5
      invariant ToDigits(x, 5) == ToDigits(v, i) + digits[i..]
    {
      i := i - 1;
      ghost var after := digits[i + 1..];
      digits[i] := v % 128;
      assert digits[i..] == [v % 128] + after;
      v := v / 128;
    }
  }

  method Base128Encode(x: u32) returns (out: seq<byte>)
    ensures out == Base128Wire(x)
  {
    var digits := SplitDigits(x);
    ghost var ds := digits[..];
    out := [];
    var k := 0;
    while k < 5
      invariant 0 <= k <= 5
      invariant digits[..] == ds
      invariant out == Symbols(ds[..k])
    {
      SymbolsAppend(ds[..k], ds[k]);
      assert ds[..k] + [ds[k]] == ds[..k + 1];
      out := out + [BASE128_ENCODE[digits[k]]];
      k := k + 1;
    }
    assert ds[..5] == ds;
  }

  method Base128DecodeDigit(b: byte) returns (d: Option<nat>)
    ensures d.Some? ==> d.value < 128 && BASE128_ENCODE[d.value] == b
    ensures d.None? ==> b !in BASE128_ENCODE
  {
    var i := 0;
    while i < 128
      invariant 0 <= i <= 128
      invariant b !in BASE128_ENCODE[..i]
    {
      if BASE128_ENCODE[i] == b {
        return Some(i);
      }
      i := i + 1;
    }
    return None;
  }

  lemma TakeDigit(encoded: seq<byte>, ds: seq<nat>, d: nat)
    requires |ds| < |encoded| && Digits128(ds) && d < 128
    requires encoded[..|ds|] == Symbols(ds) && encoded[|ds|] == BASE128_ENCODE[d]
    ensures Digits128(ds + [d]) && encoded[..|ds| + 1] == Symbols(ds + [d])
  {
    SymbolsAppend(ds, d);
    assert encoded[..|ds| + 1] == encoded[..|ds|] + [encoded[|ds|]];
  }

  lemma AddDigit(ds: seq<nat>, d: nat)
    requires d < 128
    ensures Shifted(ds) + d == Register(ds + [d])
  {
    assert (ds + [d])[..|ds|] == ds;
    LowDigit(FromDigits(ds), d);
  }

  lemma DenotedAreSymbols(encoded: seq<byte>, i: nat, y: u32)
    requires i < |encoded| && Base128Denotes(encoded, y)
    ensures encoded[i] in BASE128_ENCODE
  {
    var ds :| Spells(encoded, ds) && y == Register(ds);
    assert Symbols(ds)[i] == BASE128_ENCODE[ds[i]];
  }

  method Base128Decode(encoded: seq<byte>) returns (r: Option<u32>)
    ensures r.Some? ==> Base128Denotes(encoded, r.value)
    ensures r.None? ==> forall x :: !Base128Denotes(encoded, x)
  {
    if |encoded| != 5 {
      return None;
    }
    var x: nat := 0;
    ghost var ds: seq<nat> := [];
    var i := 0;
    while i < 5
      invariant 0 <= i <= 5
      invariant |ds| == i && Digits128(ds) && encoded[..i] == Symbols(ds)
      invariant x == if i == 5 then Register(ds) else Shifted(ds)
    {
      var d := Base128DecodeDigit(encoded[i]);
      if d.None? {
        forall y ensures !Base128Denotes(encoded, y) {
          if Base128Denotes(encoded, y) { DenotedAreSymbols(encoded, i, y); }
        }
        return None;
      }
      TakeDigit(encoded, ds, d.value);
      AddDigit(ds, d.value);
      ds := ds + [d.value];
      x := x + d.value;
      if i != 4 {
        ShiftDigit(FromDigits(ds), x);
        x := x * 128 % 0x1_0000_0000;
      }
      i := i + 1;
    }
    assert encoded[..5] == encoded;
    assert Spells(encoded, ds);
    r := Some(x);
  }

  lemma RemainderOf(q: nat, r: nat)
    requires r < 0x1_0000_0000
    ensures (q * 0x1_0000_0000 + r) % 0x1_0000_0000 == r
  {
  }

  lemma MultipleOf128(k: nat)
    ensures 128 * k % 128 == 0
  {
  }

  /** Or-ing a digit into a register whose low seven bits are clear neither carries nor overflows. */
  lemma LowDigit(high: nat, d: nat)
    requires d < 128
    ensures (high * 128 + d) % 0x1_0000_0000 == high * 128 % 0x1_0000_0000 + d
    ensures high * 128 % 0x1_0000_0000 % 128 == 0
  {
    var q, k := high / 0x200_0000, high % 0x200_0000;
    assert high * 128 == q * 0x1_0000_0000 + 128 * k;
    RemainderOf(q, 128 * k);
    RemainderOf(q, 128 * k + d);
    MultipleOf128(k);
  }

  lemma ShiftDigit(v: nat, x: nat)
    requires x == v % 0x1_0000_0000
    ensures x * 128 % 0x1_0000_0000 == v * 128 % 0x1_0000_0000
    ensures x * 128 % 0x1_0000_0000 % 128 == 0
  {
    var q := v / 0x1_0000_0000;
    var p, k := x / 0x200_0000, x % 0x200_0000;
    assert x * 128 == p * 0x1_0000_0000 + 128 * k;
    assert v * 128 == (128 * q + p) * 0x1_0000_0000 + 128 * k;
    RemainderOf(p, 128 * k);
    RemainderOf(128 * q + p, 128 * k);
    MultipleOf128(k);
  }

  lemma SymbolInjective(i: nat, j: nat)
    requires i < 128 && j < 128 && BASE128_ENCODE[i] == BASE128_ENCODE[j]
    ensures i == j
  {
    assert Base128Symbol(i) == Base128Symbol(j);
  }

  lemma SymbolsInjective(ds: seq<nat>, es: seq<nat>)
    requires Digits128(ds) && Digits128(es)
    requires Symbols(ds) == Symbols(es)
    ensures ds == es
  {
    forall i | 0 <= i < |ds| ensures |es| == |ds| && ds[i] == es[i] {
      assert Symbols(ds)[i] == Symbols(es)[i];
      SymbolInjective(ds[i], es[i]);
    }
  }

  ghost function Pow128(n: nat): nat {
    if n == 0 then 1 else 128 * Pow128(n - 1)
  }

  lemma {:induction false} FromToDigits(x: nat, n: nat)
    requires x < Pow128(n)
    ensures FromDigits(ToDigits(x, n)) == x
    decreases n
  {
    if n > 0 {
      FromToDigits(x / 128, n - 1);
      assert ToDigits(x, n)[..n - 1] == ToDigits(x / 128, n - 1);
    }
  }

  lemma FiveDigitsSuffice()
    ensures Pow128(5) == 0x8_0000_0000
  {
    assert Pow128(2) == 0x4000;
    assert Pow128(4) == 128 * (128 * Pow128(2));
  }

  lemma DigitsRoundTrip(x: u32, n: nat, y: u32)
    requires n == 5 && x < Pow128(n)
    ensures Base128Denotes(Symbols(ToDigits(x, n)), y) <==> y == x
  {
    hide ToDigits, Symbols, FromDigits, Pow128;
    FromToDigits(x, n);
    DigitsDenote(Symbols(ToDigits(x, n)), ToDigits(x, n), y);
  }

  /** The five symbols of a value denote that value and no other. */
  lemma Base128RoundTrip(x: u32, y: u32)
    ensures Base128Denotes(Base128Wire(x), y) <==> y == x
  {
    FiveDigitsSuffice();
    DigitsRoundTrip(x, 5, y);
  }

  predicate IsControlByte(b: byte) {
    b == 0x3E || b == 0x3C || b == 0x5C || b == 0x00 || b == 0xFF
  }

  lemma SymbolAvoidsControlBytes(i: nat)
    requires i < 128
    ensures !IsControlByte(BASE128_ENCODE[i])
  {
    assert BASE128_ENCODE[i] == Base128Symbol(i);
  }

  /** No checksum symbol can be taken for SOF, EOF, ESC or one of the two escaped-only bytes. */
  lemma Base128AvoidsControlBytes(x: u32, i: nat)
    requires i < 5
    ensures !IsControlByte(Base128Wire(x)[i])
  {
    SymbolAvoidsControlBytes(ToDigits(x, 5)[i]);
  }

  // ---------------------------------------------------------------- the two wire forms

  /** The Internet form keeps a u16 position, so it is defined for at most 65535 bytes. */
  predicate Feedable(t: ChecksumType, n: nat) {
    t.Internet? ==> n <= 0xFFFF
  }

  /** The checksum bytes a sender appends after feeding `fed`. */
  ghost function WireForm(t: ChecksumType, fed: seq<byte>): (r: seq<byte>)
    requires Feedable(t, |fed|)
    ensures |r| == EncodedLen(t)
  {
    match t
    case Internet =>
      InetSumFitsU32(fed);
      FoldTwiceCongruent(InetSum(fed));
      Hex4(0xFFFF - FoldTwice(InetSum(fed)))
    case Crc32Type =>
      Base128Wire(Xor(Crc32(fed), 0xFFFF_FFFF) as int)
  }

  predicate IsIgnoreSentinel(t: ChecksumType, wire: seq<byte>) {
    t.Internet? && forall i :: 0 <= i < |wire| ==> wire[i] == 0x30
  }

  lemma {:induction false} InetSumSubstitution(fed: seq<byte>, i: nat, b: byte)
    requires i < |fed|
    ensures InetSum(fed[i := b]) - InetSum(fed)
         == if i % 2 != 0 then b as int - fed[i] as int else 256 * (b as int - fed[i] as int)
  {
    var n := |fed| - 1;
    var sub := fed[i := b];
    if i == n {
      assert sub[..n] == fed[..n];
    } else {
      assert sub[..n] == fed[..n][i := b];
      InetSumSubstitution(fed[..n], i, b);
    }
  }

  lemma CongruentAndClose(a: nat, b: nat)
    requires a % 0xFFFF == b % 0xFFFF
    requires -0xFFFF < a - b < 0xFFFF
    ensures a == b
  {
  }

  /** Every single-byte substitution changes the four hex digits. */
  lemma InternetDetectsSubstitution(fed: seq<byte>, i: nat, b: byte)
    requires |fed| <= 0xFFFF && i < |fed| && b != fed[i]
    ensures WireForm(Internet, fed[i := b]) != WireForm(Internet, fed)
  {
    var s, s' := InetSum(fed), InetSum(fed[i := b]);
    InetSumFitsU32(fed);
    InetSumFitsU32(fed[i := b]);
    InetSumSubstitution(fed, i, b);
    FoldTwiceCongruent(s);
    FoldTwiceCongruent(s');
    if WireForm(Internet, fed[i := b]) == WireForm(Internet, fed) {
      Hex4Injective(0xFFFF - FoldTwice(s'), 0xFFFF - FoldTwice(s));
      CongruentAndClose(s', s);
    }
  }

  lemma WiresApart(x: u32, y: u32)
    requires x != y
    ensures Base128Wire(x) != Base128Wire(y)
  {
    Base128RoundTrip(x, x);
    Base128RoundTrip(y, x);
  }

  lemma InvertedApart(c: bv32, d: bv32)
    requires c != d
    ensures Xor(c, 0xFFFF_FFFF) as int != Xor(d, 0xFFFF_FFFF) as int
  {
    XorInjective(c, d, 0xFFFF_FFFF);
    RegisterBack(Xor(c, 0xFFFF_FFFF));
    RegisterBack(Xor(d, 0xFFFF_FFFF));
  }

  /** So does it with the five CRC-32 symbols, for messages of any length. */
  lemma CrcDetectsSubstitution(fed: seq<byte>, i: nat, b: byte)
    requires i < |fed| && b != fed[i]
    ensures WireForm(Crc32Type, fed[i := b]) != WireForm(Crc32Type, fed)
  {
    CrcSubstitution(fed, i, b);
    var c, d := Crc32(fed[i := b]), Crc32(fed);
    InvertedApart(c, d);
    WiresApart(Xor(c, 0xFFFF_FFFF) as int, Xor(d, 0xFFFF_FFFF) as int);
  }

  lemma DetectsSubstitution(t: ChecksumType, fed: seq<byte>, i: nat, b: byte)
    requires Feedable(t, |fed|) && i < |fed| && b != fed[i]
    ensures WireForm(t, fed[i := b]) != WireForm(t, fed)
  {
    match t
    case Internet => InternetDetectsSubstitution(fed, i, b);
    case Crc32Type => CrcDetectsSubstitution(fed, i, b);
  }

  lemma InetSumAppend(fed: seq<byte>, b: byte)
    ensures InetSum(fed + [b]) == InetSum(fed) + (if |fed| % 2 != 0 then b else 256 * b as int)
  {
    assert (fed + [b])[..|fed|] == fed;
  }

  lemma Crc32Append(fed: seq<byte>, b: byte)
    ensures Crc32(fed + [b]) == CrcFeed(Crc32(fed), b)
  {
    assert (fed + [b])[..|fed|] == fed;
  }

  /** Print a 16-bit sum nibble by nibble, most significant first. */
  method PrintHex4(sum: u16) returns (out: seq<byte>)
    ensures out == Hex4(sum)
  {
    out := [];
    var weight := 4096;
    while |out| < 4
      invariant |out| <= 4 && out == Hex4(sum)[..|out|]
      invariant |out| == 0 ==> weight == 4096
      invariant |out| == 1 ==> weight == 256
      invariant |out| == 2 ==> weight == 16
      invariant |out| == 3 ==> weight == 1
      invariant weight >= 0
    {
      var nibble := sum / weight % 16;
      out := out + [HexDigit(nibble)];
      weight := weight / 16;
    }
  }

  /** The accumulator: one logical byte at a time, in frame order. */
  class Running {
    const kind: ChecksumType
    var acc: u32
    var pos: u16
    var crc: bv32
    ghost var fed: seq<byte>

    ghost predicate Valid()
      reads this
    {
      && Feedable(kind, |fed|)
      && (kind.Internet? ==> acc == InetSum(fed) && pos == |fed|)
      && (kind.Crc32Type? ==> crc == Crc32(fed))
    }

    constructor (t: ChecksumType)
      ensures Valid() && kind == t && fed == []
    {
      kind, acc, pos, crc := t, 0, 0, 0xFFFF_FFFF;
      fed := [];
    }

    method Update(b: byte)
      requires Valid() && Feedable(kind, |fed| + 1)
      modifies this
      ensures Valid() && fed == old(fed) + [b]
    {
      fed := fed + [b];
      if kind.Internet? {
        InetSumAppend(old(fed), b);
        InetSumFitsU32(fed);
        if pos % 2 != 0 {
          acc := acc + b;
        } else {
          acc := acc + 256 * b as int;
        }
        pos := pos + 1;
      } else {
        Crc32Append(old(fed), b);
        crc := TableStep(crc, b);
      }
    }

    method Finalize() returns (out: seq<byte>)
      requires Valid()
      ensures out == WireForm(kind, fed)
    {
      if kind.Internet? {
        FoldTwiceCongruent(acc);
        var folded: nat := acc;
        folded := folded / 0x1_0000 + folded % 0x1_0000;
        folded := folded / 0x1_0000 + folded % 0x1_0000;
        var sum := 0xFFFF - folded;
        out := PrintHex4(sum);
      } else {
        out := Base128Encode(Xor(crc, 0xFFFF_FFFF) as int);
      }
    }
  }
}
