// Wire bytes and fixed-width unsigned numbers, shared by every protocol layer.

module Bytes {
  type byte = x: int | 0 <= x < 0x100
  type u16 = x: int | 0 <= x < 0x1_0000
  type u32 = x: int | 0 <= x < 0x1_0000_0000
  type i64 = x: int | -0x8000_0000_0000_0000 <= x < 0x8000_0000_0000_0000
  type u64 = x: int | 0 <= x < 0x1_0000_0000_0000_0000

  /** Casting to a 64-bit signed integer keeps the low 64 bits. */
  function AsI64(n: int): i64 {
    var low := n % 0x1_0000_0000_0000_0000;
    if low < 0x8000_0000_0000_0000 then low else low - 0x1_0000_0000_0000_0000
  }

  lemma AsI64Difference(a: i64, b: i64)
    ensures AsI64(AsI64(AsI64(a - b)) + b) == a
  {
  }

  datatype Option<+T> = None | Some(value: T)

  /** `bs` occurs in `s` starting at offset `i`. */
  predicate OccursAt(s: seq<byte>, i: nat, bs: seq<byte>) {
    i + |bs| <= |s| && s[i..i + |bs|] == bs
  }

  lemma OccursExtends(s: seq<byte>, i: nat, bs: seq<byte>, more: seq<byte>)
    requires OccursAt(s, i, bs)
    ensures OccursAt(s + more, i, bs)
  {
    assert (s + more)[i..i + |bs|] == s[i..i + |bs|];
  }

  lemma OccursAtEnd(s: seq<byte>, bs: seq<byte>)
    ensures OccursAt(s + bs, |s|, bs)
  {
  }

  /** `part` fills `bytes` from `pos` to `end`. */
  predicate Fills(bytes: seq<byte>, pos: nat, end: nat, part: seq<byte>) {
    pos <= end <= |bytes| && bytes[pos..end] == part
  }

  lemma FillsThen(bytes: seq<byte>, pos: nat, mid: nat, end: nat, a: seq<byte>, b: seq<byte>)
    requires Fills(bytes, pos, mid, a) && Fills(bytes, mid, end, b)
    ensures Fills(bytes, pos, end, a + b)
  {
  }

  lemma FillsSplit(bytes: seq<byte>, pos: nat, end: nat, a: seq<byte>, b: seq<byte>)
    requires Fills(bytes, pos, end, a + b)
    ensures Fills(bytes, pos, pos + |a|, a) && Fills(bytes, pos + |a|, end, b)
  {
    assert bytes[pos..pos + |a|] == bytes[pos..end][..|a|];
    assert bytes[pos + |a|..end] == bytes[pos..end][|a|..];
  }

  lemma SeqAssoc<T>(a: seq<T>, b: seq<T>, c: seq<T>)
    ensures (a + b) + c == a + (b + c)
  {
  }

  /** Concatenation of a list of byte strings. */
  function Flatten(parts: seq<seq<byte>>): seq<byte> {
    if parts == [] then [] else parts[0] + Flatten(parts[1..])
  }

  /** Run `f` over a sequence, left to right. */
  function Fold<S, B>(f: (S, B) -> S, s: S, bs: seq<B>): S
    decreases |bs|
  {
    if bs == [] then s else Fold(f, f(s, bs[0]), bs[1..])
  }

  lemma {:induction false} FoldConcat<S, B>(f: (S, B) -> S, s: S, a: seq<B>, b: seq<B>)
    ensures Fold(f, s, a + b) == Fold(f, Fold(f, s, a), b)
    decreases |a|
  {
    if a == [] {
      assert a + b == b;
    } else {
      FoldConcat(f, f(s, a[0]), a[1..], b);
      assert (a + b)[1..] == a[1..] + b;
    }
  }

  lemma FoldOne<S, B>(f: (S, B) -> S, s: S, b: B)
    ensures Fold(f, s, [b]) == f(s, b)
  {
    assert [b][1..] == [];
  }

  /** `f` run over `bs` leads from `s` to `t`, through the states of some path. */
  ghost predicate Runs<S(!new), B>(f: (S, B) -> S, s: S, bs: seq<B>, t: S) {
    exists path :: RunPath(f, path, s, bs, t)
  }

  ghost predicate RunPath<S, B>(f: (S, B) -> S, path: seq<S>, s: S, bs: seq<B>, t: S) {
    && |path| == |bs| + 1 && path[0] == s && path[|bs|] == t
    && forall i {:trigger f(path[i], bs[i])} :: 0 <= i < |bs| ==> path[i + 1] == f(path[i], bs[i])
  }

  lemma RunsOne<S(!new), B>(f: (S, B) -> S, s: S, b: B)
    ensures Runs(f, s, [b], f(s, b))
  {
    assert RunPath(f, [s, f(s, b)], s, [b], f(s, b));
  }

  lemma RunsNone<S(!new), B>(f: (S, B) -> S, s: S)
    ensures Runs(f, s, [], s)
  {
    assert RunPath(f, [s], s, [], s);
  }

  lemma RunsThen<S(!new), B>(f: (S, B) -> S, s: S, a: seq<B>, t: S, b: seq<B>, u: S)
    requires Runs(f, s, a, t) && Runs(f, t, b, u)
    ensures Runs(f, s, a + b, u)
  {
    var pa :| RunPath(f, pa, s, a, t);
    var pb :| RunPath(f, pb, t, b, u);
    var path := pa + pb[1..];
    forall i | 0 <= i < |a + b| ensures path[i + 1] == f(path[i], (a + b)[i]) {
      if i < |a| {
        assert path[i + 1] == pa[i + 1] == f(pa[i], a[i]);
      } else {
        var j := i - |a|;
        assert path[i] == pb[j];
        assert path[i + 1] == pb[j + 1] == f(pb[j], b[j]);
      }
    }
    assert RunPath(f, path, s, a + b, u);
  }

  lemma {:induction false} RunsFold<S(!new), B>(f: (S, B) -> S, s: S, bs: seq<B>, t: S)
    requires Runs(f, s, bs, t)
    ensures Fold(f, s, bs) == t
    decreases |bs|
  {
    if bs != [] {
      var path :| RunPath(f, path, s, bs, t);
      assert path[1] == f(path[0], bs[0]);
      forall i | 0 <= i < |bs| - 1 ensures path[1..][i + 1] == f(path[1..][i], bs[1..][i]) {
        assert path[i + 2] == f(path[i + 1], bs[i + 1]);
      }
      assert RunPath(f, path[1..], path[1], bs[1..], t);
      RunsFold(f, path[1], bs[1..], t);
    }
  }
}
