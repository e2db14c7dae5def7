// The sparse form of the YANG bits type (RFC 9254 section 6.7): packed bytes as byte-string spans and gap counts.

module YangBits {
  import opened Bytes
  import opened Cbor

  // ---------------------------------------------------------------- bits of a byte

  predicate BitOf(b: nat, k: nat)
    decreases k
  {
    if k == 0 then b % 2 == 1 else BitOf(b / 2, k - 1)
  }

  /** `b` with bit `k` set. */
  function WithBit(b: nat, k: nat): nat
    decreases k
  {
    if k == 0 then (if b % 2 == 1 then b else b + 1) else 2 * WithBit(b / 2, k - 1) + b % 2
  }

  function Pow2(n: nat): nat {
    if n == 0 then 1 else 2 * Pow2(n - 1)
  }

  lemma {:induction false} WithBitFits(b: nat, k: nat, n: nat)
    requires k < n && b < Pow2(n)
    ensures WithBit(b, k) < Pow2(n) && WithBit(b, k) > 0
    decreases k
  {
    if k > 0 {
      assert Pow2(n) == 2 * Pow2(n - 1);
      WithBitFits(b / 2, k - 1, n - 1);
    }
  }

  lemma {:induction false} WithBitSets(b: nat, k: nat, j: nat)
    ensures BitOf(WithBit(b, k), j) <==> j == k || BitOf(b, j)
    decreases k
  {
    var c := WithBit(b, k);
    if k == 0 {
      assert c / 2 == b / 2;
    } else {
      var h := WithBit(b / 2, k - 1);
      assert c == 2 * h + b % 2;
      assert c % 2 == b % 2 && c / 2 == h;
      if j > 0 { WithBitSets(b / 2, k - 1, j - 1); }
    }
  }

  lemma {:induction false} NoBits(k: nat)
    ensures !BitOf(0, k)
    decreases k
  {
    if k > 0 { NoBits(k - 1); }
  }

  lemma Pow2Of8()
    ensures Pow2(8) == 256
  {
    assert Pow2(2) == 4 && Pow2(4) == 16 && Pow2(6) == 64;
  }

  // ---------------------------------------------------------------- packing positions

  function Set(bytes: seq<byte>, p: nat): (r: seq<byte>)
    requires p / 8 < |bytes|
    ensures |r| == |bytes|
  {
    WithBitFits8(bytes[p / 8], p % 8);
    bytes[p / 8 := WithBit(bytes[p / 8], p % 8)]
  }

  lemma WithBitFits8(b: byte, k: nat)
    requires k < 8
    ensures 0 < WithBit(b, k) < 256
  {
    Pow2Of8();
    WithBitFits(b, k, 8);
  }

  /** Bit `p` of a packed byte string. */
  predicate Has(bytes: seq<byte>, p: nat) {
    p / 8 < |bytes| && BitOf(bytes[p / 8], p % 8)
  }

  lemma SetHas(bytes: seq<byte>, p: nat, q: nat)
    requires p / 8 < |bytes|
    ensures Has(Set(bytes, p), q) <==> q == p || Has(bytes, q)
  {
    if q / 8 == p / 8 { WithBitSets(bytes[p / 8], p % 8, q % 8); }
  }

  function SetAll(bytes: seq<byte>, ps: seq<nat>): (r: seq<byte>)
    requires forall i :: 0 <= i < |ps| ==> ps[i] / 8 < |bytes|
    ensures |r| == |bytes|
    decreases |ps|
  {
    if ps == [] then bytes else SetAll(Set(bytes, ps[0]), ps[1..])
  }

  lemma {:induction false} SetAllHas(bytes: seq<byte>, ps: seq<nat>, q: nat)
    requires forall i :: 0 <= i < |ps| ==> ps[i] / 8 < |bytes|
    ensures Has(SetAll(bytes, ps), q) <==> q in ps || Has(bytes, q)
    decreases |ps|
  {
    if ps != [] {
      SetHas(bytes, ps[0], q);
      SetAllHas(Set(bytes, ps[0]), ps[1..], q);
      assert q in ps <==> q == ps[0] || q in ps[1..];
    }
  }

  function Zeros(n: nat): (r: seq<byte>)
    ensures |r| == n
  {
    seq(n, _ => 0)
  }

  function MaxOf(ps: seq<nat>): (m: nat)
    requires ps != []
    ensures m in ps && forall i :: 0 <= i < |ps| ==> ps[i] <= m
  {
    if |ps| == 1 then ps[0]
    else
      var m := MaxOf(ps[1..]);
      assert forall i :: 1 <= i < |ps| ==> ps[i] == ps[1..][i - 1];
      if ps[0] > m then ps[0] else m
  }

  /** The shortest byte string with exactly these bits set. */
  function Pack(ps: seq<nat>): (r: seq<byte>)
    ensures |r| == if ps == [] then 0 else MaxOf(ps) / 8 + 1
  {
    if ps == [] then [] else SetAll(Zeros(MaxOf(ps) / 8 + 1), ps)
  }

  lemma PackHas(ps: seq<nat>, q: nat)
    ensures Has(Pack(ps), q) <==> q in ps
  {
    if ps != [] {
      var z := Zeros(MaxOf(ps) / 8 + 1);
      SetAllHas(z, ps, q);
      NoBits(q % 8);
    }
  }

  /** A packed byte string never ends in a zero byte. */
  lemma PackEndsSet(ps: seq<nat>)
    requires ps != []
    ensures Pack(ps)[|Pack(ps)| - 1] != 0
  {
    PackHas(ps, MaxOf(ps));
    NoBits(MaxOf(ps) % 8);
  }

  // ---------------------------------------------------------------- spans and gaps

  /** The number of leading non-zero bytes. */
  function Run(bytes: seq<byte>): (n: nat)
    ensures n <= |bytes| && (forall i :: 0 <= i < n ==> bytes[i] != 0) && (n < |bytes| ==> bytes[n] == 0)
  {
    if bytes == [] || bytes[0] == 0 then 0 else 1 + Run(bytes[1..])
  }

  function GapItem(gap: nat): seq<Value> {
    if gap > 0 then [Integer(gap)] else []
  }

  /** Spans of non-zero bytes, each after the count of zero bytes before it, `gap` of them already passed. */
  function Spans(bytes: seq<byte>, gap: nat): seq<Value>
    decreases |bytes|
  {
    if bytes == [] then []
    else if bytes[0] == 0 then Spans(bytes[1..], gap + 1)
    else GapItem(gap) + ([Value.Bytes(bytes[..Run(bytes)])] + Spans(bytes[Run(bytes)..], 0))
  }

  /** The bytes a span list stands for. */
  function Expand(items: seq<Value>): seq<byte>
    decreases |items|
  {
    if items == [] then []
    else
      match items[0]
      case Integer(i) => (if i > 0 then Zeros(i) else []) + Expand(items[1..])
      case Bytes(b) => b + Expand(items[1..])
      case _ => Expand(items[1..])
  }

  /** Positive gaps and non-empty zero-free spans, strictly alternating, ending in a span. */
  predicate Alternates(items: seq<Value>)
    decreases |items|
  {
    items == []
    || (items[0].Integer? && items[0].i > 0 && |items| > 1 && items[1].Bytes? && Alternates(items[1..]))
    || (items[0].Bytes? && items[0].b != [] && 0 !in items[0].b && (|items| > 1 ==> items[1].Integer?) && Alternates(items[1..]))
  }

  lemma {:induction false} SpansAlternate(bytes: seq<byte>, gap: nat)
    ensures Alternates(Spans(bytes, gap))
    ensures var s := Spans(bytes, gap);
      s != [] && (gap > 0 || (bytes != [] && bytes[0] == 0)) ==> s[0].Integer?
    decreases |bytes|
  {
    if bytes == [] {
    } else if bytes[0] == 0 {
      SpansAlternate(bytes[1..], gap + 1);
    } else {
      var n := Run(bytes);
      SpansAlternate(bytes[n..], 0);
      var span := [Value.Bytes(bytes[..n])];
      var tail := span + Spans(bytes[n..], 0);
      assert tail[1..] == Spans(bytes[n..], 0);
      if n < |bytes| { assert bytes[n..][0] == bytes[n] == 0; }
      assert Alternates(tail);
      if gap > 0 { assert (GapItem(gap) + tail)[1..] == tail; } else { assert GapItem(gap) + tail == tail; }
    }
  }

  lemma ExpandCons(v: Value, rest: seq<Value>)
    ensures Expand([v] + rest) ==
      (match v case Integer(i) => if i > 0 then Zeros(i) else [] case Bytes(b) => b case _ => []) + Expand(rest)
  {
    assert ([v] + rest)[1..] == rest;
    if !v.Integer? && !v.Bytes? { assert [] + Expand(rest) == Expand(rest); }
  }

  lemma ZerosOne(gap: nat, bytes: seq<byte>)
    requires bytes != [] && bytes[0] == 0
    ensures Zeros(gap + 1) + bytes[1..] == Zeros(gap) + bytes
  {
  }

  /** The spans of bytes that do not end in zero expand to those bytes. */
  lemma {:induction false} SpansExpand(bytes: seq<byte>, gap: nat)
    requires bytes != [] && bytes[|bytes| - 1] != 0
    ensures Expand(Spans(bytes, gap)) == Zeros(gap) + bytes
    decreases |bytes|
  {
    if bytes[0] == 0 {
      SpansExpand(bytes[1..], gap + 1);
      ZerosOne(gap, bytes);
    } else {
      var n := Run(bytes);
      var more := bytes[n..];
      if n < |bytes| {
        SpansExpand(more, 0);
        assert Zeros(0) + more == more;
      } else {
        assert more == [] && Spans(more, 0) == [];
      }
      assert bytes[..n] + more == bytes;
      SpanExpand(gap, bytes[..n], Spans(more, 0));
    }
  }

  lemma SpanExpand(gap: nat, span: seq<byte>, rest: seq<Value>)
    ensures Expand(GapItem(gap) + ([Value.Bytes(span)] + rest)) == Zeros(gap) + (span + Expand(rest))
  {
    var tail := [Value.Bytes(span)] + rest;
    ExpandCons(Value.Bytes(span), rest);
    if gap > 0 {
      ExpandCons(Integer(gap), tail);
    } else {
      assert [] + tail == tail && Zeros(0) + Expand(tail) == Expand(tail);
    }
  }

  // ---------------------------------------------------------------- reading set bits

  /** The set bits of a byte, lowest first, as positions from `base`. */
  function ByteBits(b: nat, base: nat): seq<nat>
    decreases b
  {
    if b == 0 then [] else (if b % 2 == 1 then [base] else []) + ByteBits(b / 2, base + 1)
  }

  /** The set bits of a byte string that starts at byte offset `off`. */
  function SetBits(bytes: seq<byte>, off: nat): seq<nat>
    decreases |bytes|
  {
    if bytes == [] then [] else ByteBits(bytes[0], 8 * off) + SetBits(bytes[1..], off + 1)
  }

  predicate Ascending(ps: seq<nat>) {
    forall i, j :: 0 <= i < j < |ps| ==> ps[i] < ps[j]
  }

  predicate Within(ps: seq<nat>, lo: nat, hi: nat) {
    forall i :: 0 <= i < |ps| ==> lo <= ps[i] < hi
  }

  lemma AscendingConcat(a: seq<nat>, b: seq<nat>, lo: nat, mid: nat, hi: nat)
    requires lo <= mid <= hi && Ascending(a) && Ascending(b) && Within(a, lo, mid) && Within(b, mid, hi)
    ensures Ascending(a + b) && Within(a + b, lo, hi)
  {
  }

  lemma {:induction false} ByteBitsAscend(b: nat, base: nat, n: nat)
    requires b < Pow2(n)
    ensures Ascending(ByteBits(b, base)) && Within(ByteBits(b, base), base, base + n)
    decreases b
  {
    if b > 0 {
      ByteBitsAscend(b / 2, base + 1, n - 1);
      AscendingConcat(if b % 2 == 1 then [base] else [], ByteBits(b / 2, base + 1), base, base + 1, base + n);
    }
  }

  lemma InConcat<T>(a: seq<T>, b: seq<T>, x: T)
    ensures x in a + b <==> x in a || x in b
  {
  }

  lemma {:induction false} ByteBitsExact(b: nat, base: nat, p: nat)
    ensures p in ByteBits(b, base) <==> p >= base && BitOf(b, p - base)
    decreases b
  {
    if b == 0 {
      if p >= base { NoBits(p - base); }
    } else {
      var first := if b % 2 == 1 then [base] else [];
      InConcat(first, ByteBits(b / 2, base + 1), p);
      ByteBitsExact(b / 2, base + 1, p);
    }
  }

  lemma OneByte(b: byte, base: nat)
    ensures Ascending(ByteBits(b, base)) && Within(ByteBits(b, base), base, base + 8)
  {
    Pow2Of8();
    ByteBitsAscend(b, base, 8);
  }

  lemma SetBitsCons(b: byte, rest: seq<byte>, off: nat)
    ensures SetBits([b] + rest, off) == ByteBits(b, 8 * off) + SetBits(rest, off + 1)
  {
    assert ([b] + rest)[1..] == rest;
  }

  /** The positions read are in ascending order. */
  lemma {:induction false} SetBitsAscend(bytes: seq<byte>, off: nat)
    ensures Ascending(SetBits(bytes, off)) && Within(SetBits(bytes, off), 8 * off, 8 * (off + |bytes|))
    decreases |bytes|
  {
    if bytes != [] {
      OneByte(bytes[0], 8 * off);
      SetBitsAscend(bytes[1..], off + 1);
      AscendingConcat(ByteBits(bytes[0], 8 * off), SetBits(bytes[1..], off + 1),
                      8 * off, 8 * (off + 1), 8 * (off + |bytes|));
    }
  }

  /** The positions read are exactly the set bits. */
  lemma {:induction false} SetBitsExact(bytes: seq<byte>, off: nat, p: nat)
    ensures p in SetBits(bytes, off) <==> p >= 8 * off && Has(bytes, p - 8 * off)
    decreases |bytes|
  {
    if bytes != [] {
      InConcat(ByteBits(bytes[0], 8 * off), SetBits(bytes[1..], off + 1), p);
      ByteBitsExact(bytes[0], 8 * off, p);
      OneByte(bytes[0], 8 * off);
      SetBitsExact(bytes[1..], off + 1, p);
      if p >= 8 * off { HasParts(bytes, p - 8 * off); }
    }
  }

  lemma HasParts(bytes: seq<byte>, q: nat)
    requires bytes != []
    ensures q < 8 ==> (Has(bytes, q) <==> BitOf(bytes[0], q))
    ensures q >= 8 ==> (Has(bytes, q) <==> Has(bytes[1..], q - 8))
  {
  }

  lemma {:induction false} SetBitsConcat(a: seq<byte>, b: seq<byte>, off: nat)
    ensures SetBits(a + b, off) == SetBits(a, off) + SetBits(b, off + |a|)
    decreases |a|
  {
    if a == [] {
      assert a + b == b;
    } else {
      assert a + b == [a[0]] + (a[1..] + b);
      SetBitsCons(a[0], a[1..] + b, off);
      SetBitsConcat(a[1..], b, off + 1);
      SeqAssoc(ByteBits(a[0], 8 * off), SetBits(a[1..], off + 1), SetBits(b, off + |a|));
    }
  }

  lemma {:induction false} SetBitsOfZeros(n: nat, off: nat)
    ensures SetBits(Zeros(n), off) == []
    decreases n
  {
    if n > 0 {
      assert Zeros(n)[1..] == Zeros(n - 1);
      SetBitsOfZeros(n - 1, off + 1);
    }
  }

  // ---------------------------------------------------------------- the algorithm

  /** Split a packed byte string into spans and gaps. */
  method BitsBytesToSpans(bytes: seq<byte>) returns (out: seq<Value>)
    ensures out == Spans(bytes, 0)
  {
    out := [];
    var i, pendingGap := 0, 0;
    assert bytes[0..] == bytes;
    while i < |bytes|
      invariant 0 <= i <= |bytes|
      invariant out + Spans(bytes[i..], pendingGap) == Spans(bytes, 0)
    {
      ghost var tail := bytes[i..];
      if bytes[i] == 0 {
        assert tail[1..] == bytes[i + 1..];
        pendingGap := pendingGap + 1;
        i := i + 1;
        continue;
      }
      ghost var out0, gap0 := out, pendingGap;
      if pendingGap > 0 {
        out := out + [Integer(pendingGap)];
        pendingGap := 0;
      }
      var start := i;
      while i < |bytes| && bytes[i] != 0
        invariant start <= i <= |bytes| && i - start <= Run(tail)
        invariant forall j :: start <= j < i ==> bytes[j] != 0
      {
        assert tail[i - start] == bytes[i];
        i := i + 1;
      }
      assert i - start == Run(tail) by {
        if i < |bytes| { assert tail[i - start] == bytes[i]; }
      }
      assert bytes[start..i] == tail[..Run(tail)] && bytes[i..] == tail[Run(tail)..];
      var span := [Value.Bytes(bytes[start..i])];
      SpanPushed(out0, GapItem(gap0), span, Spans(bytes[i..], 0));
      out := out + span;
    }
    assert bytes[|bytes|..] == [] && out + [] == out;
  }

  lemma SpanPushed<T>(out: seq<T>, gap: seq<T>, span: seq<T>, rest: seq<T>)
    ensures out + (gap + (span + rest)) == out + gap + span + rest
    ensures gap == [] ==> out + gap == out
  {
  }

  // ---------------------------------------------------------------- bit names

  datatype BitDef = BitDef(name: string, position: u32)

  predicate DistinctBits(bits: seq<BitDef>) {
    forall i, j :: 0 <= i < j < |bits| ==> bits[i].name != bits[j].name && bits[i].position != bits[j].position
  }

  /** The position of the first bit with this name. */
  function PositionOf(bits: seq<BitDef>, name: string): Option<u32> {
    if bits == [] then None else if bits[0].name == name then Some(bits[0].position) else PositionOf(bits[1..], name)
  }

  /** The name of the first bit at this position. */
  function NameAt(bits: seq<BitDef>, p: nat): Option<string> {
    if bits == [] then None else if bits[0].position == p then Some(bits[0].name) else NameAt(bits[1..], p)
  }

  lemma {:induction false} NameAtInverse(bits: seq<BitDef>, name: string, p: nat)
    requires DistinctBits(bits)
    ensures PositionOf(bits, name) == Some(p) <==> NameAt(bits, p) == Some(name)
    ensures PositionOf(bits, name) == Some(p) ==> (exists i :: 0 <= i < |bits| && bits[i] == BitDef(name, p))
    decreases |bits|
  {
    if bits != [] {
      assert forall i :: 0 <= i < |bits[1..]| ==> bits[1..][i] == bits[i + 1];
      NameAtInverse(bits[1..], name, p);
      if PositionOf(bits[1..], name) == Some(p) {
        var i :| 0 <= i < |bits[1..]| && bits[1..][i] == BitDef(name, p);
        assert bits[i + 1] == BitDef(name, p);
      }
    }
  }

  function PositionsOf(bits: seq<BitDef>, names: seq<string>): Option<seq<nat>> {
    if names == [] then Some([])
    else
      match PositionOf(bits, names[0])
      case None => None
      case Some(p) => match PositionsOf(bits, names[1..]) { case None => None case Some(ps) => Some([p] + ps) }
  }

  /** The names of the positions that have one. */
  function NamesAt(bits: seq<BitDef>, ps: seq<nat>): seq<string> {
    if ps == [] then []
    else (match NameAt(bits, ps[0]) case None => [] case Some(n) => [n]) + NamesAt(bits, ps[1..])
  }

  /** A single span stands for itself, anything else is an array of spans and gaps. */
  function SpanValue(items: seq<Value>): Value {
    if |items| == 1 && items[0].Bytes? then items[0] else Array(items)
  }

  function EncodeNames(bits: seq<BitDef>, names: seq<string>): Option<Value> {
    match PositionsOf(bits, names)
    case None => None
    case Some(ps) => Some(SpanValue(Spans(Pack(ps), 0)))
  }

  function Low32(i: int): u32 {
    i % 0x1_0000_0000
  }

  function AllLow32(ps: seq<nat>): seq<nat> {
    if ps == [] then [] else [Low32(ps[0]) as nat] + AllLow32(ps[1..])
  }

  /** The positions a span list holds; offsets are 32-bit. */
  function SpanPositions(items: seq<Value>, off: nat): Option<seq<nat>> {
    if items == [] then Some([])
    else
      match items[0]
      case Integer(i) => SpanPositions(items[1..], Low32(off + Low32(i)))
      case Bytes(b) => Prepend(AllLow32(SetBits(b, off)), SpanPositions(items[1..], Low32(off + |b|)))
      case _ => None
  }

  function Prepend(a: seq<nat>, b: Option<seq<nat>>): Option<seq<nat>> {
    match b case None => None case Some(ps) => Some(a + ps)
  }

  function SpanList(v: Value): Option<seq<Value>> {
    match v case Bytes(_) => Some([v]) case Array(items) => Some(items) case _ => None
  }

  function DecodeNames(bits: seq<BitDef>, v: Value): Option<seq<string>> {
    match SpanList(v)
    case None => None
    case Some(items) =>
      match SpanPositions(items, 0) { case None => None case Some(ps) => Some(NamesAt(bits, ps)) }
  }

  lemma {:induction false} LowIsSame(ps: seq<nat>)
    requires Within(ps, 0, 0x1_0000_0000)
    ensures AllLow32(ps) == ps
    decreases |ps|
  {
    if ps != [] {
      assert forall i :: 0 <= i < |ps[1..]| ==> ps[1..][i] == ps[i + 1];
      LowIsSame(ps[1..]);
    }
  }

  /** While positions fit 32 bits, a span list holds the set bits of the bytes it expands to. */
  lemma {:induction false} SpanPositionsExact(items: seq<Value>, off: nat)
    requires Alternates(items) && 8 * (off + |Expand(items)|) <= 0x1_0000_0000
    ensures SpanPositions(items, off) == Some(SetBits(Expand(items), off))
    decreases |items|
  {
    hide Low32;
    if items != [] {
      var rest := items[1..];
      match items[0]
      case Integer(i) =>
        SpanPositionsExact(rest, off + i);
        GapPositions(i, off, Expand(rest));
      case Bytes(b) =>
        SpanPositionsExact(rest, off + |b|);
        SpanOfBytes(b, off, Expand(rest));
        if rest == [] {
          assert SetBits(b, off) + [] == SetBits(b, off) && b + [] == b;
        } else {
          LastNotEmpty(rest);
        }
    }
  }

  lemma LowSum(off: nat, i: nat)
    requires off + i < 0x1_0000_0000
    ensures Low32(off + Low32(i)) == off + i
  {
  }

  lemma GapPositions(i: nat, off: nat, rest: seq<byte>)
    requires off + i < 0x1_0000_0000
    ensures SetBits(Zeros(i) + rest, off) == SetBits(rest, off + i) && Low32(off + Low32(i)) == off + i
  {
    hide Low32;
    LowSum(off, i);
    SetBitsConcat(Zeros(i), rest, off);
    SetBitsOfZeros(i, off);
    assert [] + SetBits(rest, off + i) == SetBits(rest, off + i);
  }

  lemma SpanOfBytes(b: seq<byte>, off: nat, rest: seq<byte>)
    requires 8 * (off + |b|) <= 0x1_0000_0000
    ensures SetBits(b + rest, off) == AllLow32(SetBits(b, off)) + SetBits(rest, off + |b|)
    ensures Low32(off + |b|) == off + |b|
  {
    SetBitsConcat(b, rest, off);
    SetBitsAscend(b, off);
    LowIsSame(SetBits(b, off));
  }

  lemma {:induction false} LastNotEmpty(items: seq<Value>)
    requires Alternates(items) && items != []
    ensures |Expand(items)| > 0
    decreases |items|
  {
    if items[0].Integer? { LastNotEmpty(items[1..]); }
  }

  lemma {:induction false} PositionsBounded(bits: seq<BitDef>, names: seq<string>)
    requires PositionsOf(bits, names).Some?
    ensures forall p :: p in PositionsOf(bits, names).value ==> p < 0x1_0000_0000
    ensures forall p :: p in PositionsOf(bits, names).value <==> (exists n :: n in names && PositionOf(bits, n) == Some(p))
    decreases |names|
  {
    if names != [] {
      PositionsBounded(bits, names[1..]);
      var rest, p0 := PositionsOf(bits, names[1..]).value, PositionOf(bits, names[0]).value;
      forall p ensures p in [p0 as nat] + rest <==> (exists n :: n in names && PositionOf(bits, n) == Some(p)) {
        if p in [p0 as nat] + rest {
          if p == p0 {
            assert names[0] in names;
          } else {
            var n :| n in names[1..] && PositionOf(bits, n) == Some(p);
            assert n in names;
          }
        }
        if n :| n in names && PositionOf(bits, n) == Some(p) {
          assert n == names[0] || n in names[1..];
        }
      }
    }
  }

  lemma SpanListOfValue(items: seq<Value>)
    ensures SpanList(SpanValue(items)) == Some(items)
  {
    if |items| == 1 && items[0].Bytes? { assert [items[0]] == items; }
  }

  /** The spans of packed positions hold exactly these positions, ascending. */
  lemma PackedPositions(ps: seq<nat>)
    requires forall p :: p in ps ==> p < 0x1_0000_0000
    ensures var qs := SpanPositions(Spans(Pack(ps), 0), 0);
      qs.Some? && Ascending(qs.value) && forall p :: p in qs.value <==> p in ps
  {
    if ps == [] {
      assert Spans(Pack(ps), 0) == [];
    } else {
      PackEndsSet(ps);
      SpanBits(Pack(ps));
      PackedBits(Pack(ps), ps);
    }
  }

  lemma SpanBits(bytes: seq<byte>)
    requires bytes != [] && bytes[|bytes| - 1] != 0 && 8 * |bytes| <= 0x1_0000_0000
    ensures SpanPositions(Spans(bytes, 0), 0) == Some(SetBits(bytes, 0))
  {
    SpansAlternate(bytes, 0);
    SpansExpand(bytes, 0);
    assert Zeros(0) + bytes == bytes;
    SpanPositionsExact(Spans(bytes, 0), 0);
  }

  lemma PackedBits(bytes: seq<byte>, ps: seq<nat>)
    requires bytes == Pack(ps)
    ensures Ascending(SetBits(bytes, 0)) && forall p :: p in SetBits(bytes, 0) <==> p in ps
  {
    SetBitsAscend(bytes, 0);
    forall p: nat ensures p in SetBits(bytes, 0) <==> p in ps {
      SetBitsExact(bytes, 0, p);
      PackHas(ps, p);
    }
  }

  /** The positions of a list of names, read back from its encoding. */
  lemma PositionsRoundTrip(bits: seq<BitDef>, names: seq<string>)
    requires PositionsOf(bits, names).Some?
    ensures var ps := PositionsOf(bits, names).value;
      && EncodeNames(bits, names).Some?
      && SpanList(EncodeNames(bits, names).value).Some?
      && var qs := SpanPositions(SpanList(EncodeNames(bits, names).value).value, 0);
         qs.Some? && Ascending(qs.value) && forall p :: p in qs.value <==> p in ps
  {
    PositionsBounded(bits, names);
    PackedPositions(PositionsOf(bits, names).value);
    SpanListOfValue(Spans(Pack(PositionsOf(bits, names).value), 0));
  }

  /** Every position has a name, so the names are one for each position, in the same order. */
  lemma {:induction false} NamesOfPositions(bits: seq<BitDef>, qs: seq<nat>)
    requires DistinctBits(bits) && forall p :: p in qs ==> NameAt(bits, p).Some?
    ensures PositionsOf(bits, NamesAt(bits, qs)) == Some(qs)
    decreases |qs|
  {
    if qs != [] {
      NamesOfPositions(bits, qs[1..]);
      var n, rest := NameAt(bits, qs[0]).value, NamesAt(bits, qs[1..]);
      NameAtInverse(bits, n, qs[0]);
      assert ([n] + rest)[1..] == rest && [qs[0]] + qs[1..] == qs;
    }
  }

  /**
   * Decoding the encoding of any list of a type's names gives those names, each once, in ascending order of their
   * positions.
   */
  lemma BitsRoundTrip(bits: seq<BitDef>, names: seq<string>)
    requires DistinctBits(bits) && PositionsOf(bits, names).Some?
    ensures EncodeNames(bits, names).Some? && DecodeNames(bits, EncodeNames(bits, names).value).Some?
    ensures var r := DecodeNames(bits, EncodeNames(bits, names).value).value;
      && PositionsOf(bits, r).Some? && Ascending(PositionsOf(bits, r).value)
      && (forall n :: n in r <==> n in names)
  {
    PositionsRoundTrip(bits, names);
    PositionsBounded(bits, names);
    var ps := PositionsOf(bits, names).value;
    var qs := SpanPositions(SpanList(EncodeNames(bits, names).value).value, 0).value;
    forall p | p in qs ensures NameAt(bits, p).Some? {
      var n :| n in names && PositionOf(bits, n) == Some(p);
      NameAtInverse(bits, n, p);
    }
    NamesOfPositions(bits, qs);
    var r := NamesAt(bits, qs);
    PositionsBounded(bits, r);
    forall n ensures n in r <==> n in names {
      SameName(bits, r, names, n);
      SameName(bits, names, r, n);
    }
  }

  /** A name of one list is in another whose positions are the same. */
  lemma SameName(bits: seq<BitDef>, a: seq<string>, b: seq<string>, n: string)
    requires DistinctBits(bits) && PositionsOf(bits, a).Some? && PositionsOf(bits, b).Some?
    requires forall p :: p in PositionsOf(bits, a).value <==> p in PositionsOf(bits, b).value
    ensures n in a ==> n in b
  {
    if n in a {
      NamesHavePositions(bits, a, n);
      var p := PositionOf(bits, n).value;
      PositionsBounded(bits, a);
      PositionsBounded(bits, b);
      var m :| m in b && PositionOf(bits, m) == Some(p);
      NameAtInverse(bits, m, p);
      NameAtInverse(bits, n, p);
    }
  }

  lemma {:induction false} NamesHavePositions(bits: seq<BitDef>, names: seq<string>, n: string)
    requires PositionsOf(bits, names).Some? && n in names
    ensures PositionOf(bits, n).Some?
    decreases |names|
  {
    if n != names[0] { NamesHavePositions(bits, names[1..], n); }
  }
}
