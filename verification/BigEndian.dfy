// Big-endian unsigned integers of a fixed number of bytes.

module BigEndian {
  import opened Bytes

  function Pow256(k: nat): nat {
    if k == 0 then 1 else 256 * Pow256(k - 1)
  }

  /** The `k` low bytes of `n`, most significant first. */
  function ToBytes(n: nat, k: nat): (r: seq<byte>)
    ensures |r| == k
    decreases k
  {
    if k == 0 then [] else ToBytes(n / 256, k - 1) + [n % 256]
  }

  function FromBytes(bs: seq<byte>): nat {
    if bs == [] then 0 else FromBytes(bs[..|bs| - 1]) * 256 + bs[|bs| - 1]
  }

  lemma {:induction false} FromToBytes(n: nat, k: nat)
    requires n < Pow256(k)
    ensures FromBytes(ToBytes(n, k)) == n
    decreases k
  {
    if k > 0 {
      FromToBytes(n / 256, k - 1);
      assert ToBytes(n, k)[..k - 1] == ToBytes(n / 256, k - 1);
    }
  }

  lemma {:induction false} ToFromBytes(bs: seq<byte>)
    ensures ToBytes(FromBytes(bs), |bs|) == bs && FromBytes(bs) < Pow256(|bs|)
  {
    if bs != [] {
      var n := |bs| - 1;
      ToFromBytes(bs[..n]);
      assert FromBytes(bs) / 256 == FromBytes(bs[..n]) && FromBytes(bs) % 256 == bs[n];
      assert bs[..n] + [bs[n]] == bs;
    }
  }

  lemma Pow256Values()
    ensures Pow256(0) == 1 && Pow256(1) == 0x100 && Pow256(2) == 0x1_0000 && Pow256(3) == 0x100_0000
    ensures Pow256(4) == 0x1_0000_0000 && Pow256(8) == 0x1_0000_0000_0000_0000
  {
    assert Pow256(1) == 256 * Pow256(0);
    assert Pow256(2) == 256 * Pow256(1);
    assert Pow256(3) == 256 * Pow256(2);
    assert Pow256(4) == 256 * Pow256(3);
    assert Pow256(5) == 256 * Pow256(4);
    assert Pow256(6) == 256 * Pow256(5);
    assert Pow256(7) == 256 * Pow256(6);
  }

  // ---------------------------------------------------------------- what each position is worth

  lemma Pow256Positive(k: nat)
    ensures Pow256(k) > 0
  {
  }

  lemma Regroup(b: nat, p: nat)
    ensures (256 * b) * p == 256 * (b * p)
  {
  }

  lemma DivideThenBy(n: nat, b: nat)
    requires b > 0
    ensures n / 256 / b == n / (256 * b)
  {
    var q := n / 256;
    var p, s := q / b, q % b;
    assert q == b * p + s;
    Regroup(b, p);
    QuotientOf(n, 256 * b, p, 256 * s + n % 256);
  }

  lemma ProductBeyond(d: int, e: int)
    requires d > 0
    ensures e >= 1 ==> d * e >= d
    ensures e <= -1 ==> d * e <= -d
  {
  }

  lemma QuotientOf(n: nat, d: nat, q: nat, r: nat)
    requires d > 0 && n == d * q + r && r < d
    ensures n / d == q
  {
    var e := n / d - q;
    assert d * (n / d) + n % d == n;
    assert d * e == r - n % d;
    ProductBeyond(d, e);
  }

  /** Byte `i` of `k` counts multiples of 256 to the power of the number of bytes behind it. */
  lemma {:induction false} ByteAt(n: nat, k: nat, i: nat)
    requires i < k
    ensures Pow256(k - 1 - i) > 0 && ToBytes(n, k)[i] == n / Pow256(k - 1 - i) % 256
    decreases k
  {
    Pow256Positive(k - 1 - i);
    if i < k - 1 {
      ByteAt(n / 256, k - 1, i);
      DivideThenBy(n, Pow256(k - 2 - i));
    }
  }

  lemma LastByte(bs: seq<byte>, b: byte)
    ensures FromBytes(bs + [b]) == 256 * FromBytes(bs) + b
  {
    assert (bs + [b])[..|bs|] == bs;
  }

  /** Up to four bytes, written out. */
  lemma FewBytes(a: nat, b: nat, c: nat, d: nat)
    requires a < 0x100 && b < 0x100 && c < 0x100 && d < 0x100
    ensures FromBytes([]) == 0 && FromBytes([a]) == a && FromBytes([a, b]) == 0x100 * a + b
    ensures FromBytes([a, b, c]) == 0x1_0000 * a + 0x100 * b + c
    ensures FromBytes([a, b, c, d]) == 0x100_0000 * a + 0x1_0000 * b + 0x100 * c + d
  {
    LastByte([], a);
    LastByte([a], b);
    LastByte([a, b], c);
    LastByte([a, b, c], d);
    assert [] + [a] == [a] && [a] + [b] == [a, b] && [a, b] + [c] == [a, b, c] && [a, b, c] + [d] == [a, b, c, d];
  }

  /** Eight bytes are two groups of four. */
  lemma EightBytes(high: seq<byte>, a: nat, b: nat, c: nat, d: nat)
    requires a < 0x100 && b < 0x100 && c < 0x100 && d < 0x100
    ensures FromBytes(high + [a, b, c, d]) ==
      0x1_0000_0000 * FromBytes(high) + (0x100_0000 * a + 0x1_0000 * b + 0x100 * c + d)
  {
    hide FromBytes;
    LastByte(high, a);
    LastByte(high + [a], b);
    LastByte(high + [a] + [b], c);
    LastByte(high + [a] + [b] + [c], d);
    assert high + [a, b, c, d] == high + [a] + [b] + [c] + [d];
  }
}
