// Leaf values (RFC 9254 section 6, RFC 7951 section 6): their JSON and CBOR forms, type by type, outside unions.

module YangLeaf {
  import opened Bytes
  import opened YangSchema
  import opened YangJson
  import opened YangBody
  import opened YangBits
  import opened YangText
  import opened YangCanon
  import opened YangIdentity
  import C = Cbor
  import YangRoundTrip

  const I64_MIN: int := -0x8000_0000_0000_0000
  const I64_MAX: int := 0x7FFF_FFFF_FFFF_FFFF
  const U64_MAX: int := 0xFFFF_FFFF_FFFF_FFFF

  // ---------------------------------------------------------------- restrictions

  function Clamp(v: int): i64 {
    if I64_MIN <= v <= I64_MAX then v else if v > 0 then I64_MAX else I64_MIN
  }

  /** No ranges at all, or inside at least one. */
  predicate InRanges(value: i64, ranges: seq<(int, int)>) {
    ranges == [] || exists i :: 0 <= i < |ranges| && Clamp(ranges[i].0) <= value <= Clamp(ranges[i].1)
  }

  // ---------------------------------------------------------------- one function per kind of type

  function EncInt(ty: Type, v: Json): Option<C.Value> {
    if v.JNum? && I64_MIN <= v.n <= U64_MAX && InRanges(AsI64(v.n), ty.ranges) then Some(C.Integer(AsI64(v.n))) else None
  }

  function EncWide(v: Json, lo: int, hi: int): Option<C.Value> {
    if !v.JStr? then None
    else match ParseInt(v.s, lo, hi) { case None => None case Some(n) => Some(C.Integer(n)) }
  }

  function EncStr(ty: Type, v: Json): Option<C.Value> {
    if v.JStr? && InRanges(AsI64(|v.s|), ty.ranges) then Some(C.Text(v.s)) else None
  }

  function EncBinary(ty: Type, v: Json): Option<C.Value> {
    if !v.JStr? then None
    else
      match Base64Decode(v.s)
      case None => None
      case Some(b) => if InRanges(AsI64(|b|), ty.ranges) then Some(C.Bytes(b)) else None
  }

  function EnumValue(enums: seq<EnumVal>, name: string): Option<i64> {
    if enums == [] then None else if enums[0].name == name then Some(enums[0].value) else EnumValue(enums[1..], name)
  }

  function EnumName(enums: seq<EnumVal>, value: int): Option<string> {
    if enums == [] then None else if enums[0].value == value then Some(enums[0].name) else EnumName(enums[1..], value)
  }

  function EncEnum(ty: Type, v: Json): Option<C.Value> {
    if !v.JStr? then None
    else match EnumValue(ty.enums, v.s) { case None => None case Some(n) => Some(C.Integer(n)) }
  }

  /** A value the type does not define is shown as its number. */
  function DecEnum(ty: Type, c: C.Value): Option<Json> {
    if !c.Integer? then None
    else match EnumName(ty.enums, c.i) { case None => Some(JNum(AsI64(c.i))) case Some(name) => Some(JStr(name)) }
  }

  /** Names from a text of words, or from the strings of a list. */
  function BitNames(v: Json): Option<seq<string>> {
    match v case JStr(s) => Some(Words(s)) case JArr(items) => Some(Strings(items)) case _ => None
  }

  function Strings(items: seq<Json>): seq<string> {
    if items == [] then [] else (match items[0] case JStr(s) => [s] case _ => []) + Strings(items[1..])
  }

  function EncBits(ty: Type, v: Json): Option<C.Value> {
    match BitNames(v) case None => None case Some(names) => EncodeNames(ty.bits, names)
  }

  function DecBits(ty: Type, c: C.Value): Option<Json> {
    match DecodeNames(ty.bits, c) case None => None case Some(names) => Some(JStr(Join(names)))
  }

  /** The first of the candidates with this module and name. */
  function FindIdentity(ids: seq<Identity>, candidates: seq<nat>, m: string, n: string): (r: Option<nat>)
    ensures r.Some? ==> r.value < |ids| && ids[r.value].module_ == m && ids[r.value].name == n
  {
    if candidates == [] then None
    else if candidates[0] < |ids| && ids[candidates[0]].module_ == m && ids[candidates[0]].name == n then Some(candidates[0])
    else FindIdentity(ids, candidates[1..], m, n)
  }

  function IdentityBySid(ids: seq<Identity>, sid: i64, from: nat): (r: Option<nat>)
    ensures r.Some? ==> from <= r.value < |ids| && ids[r.value].sid == Some(sid)
    ensures r.None? ==> forall i :: from <= i < |ids| ==> ids[i].sid != Some(sid)
    decreases |ids| - from
  {
    if from >= |ids| then None else if ids[from].sid == Some(sid) then Some(from) else IdentityBySid(ids, sid, from + 1)
  }

  /** A qualified name, or a bare one of the module that declared the type. */
  function EncIdentity(ids: seq<Identity>, ty: Type, v: Json): Option<C.Value> {
    if !v.JStr? || ty.identityValues.None? then None
    else
      var (m, n) := match SplitOnce(v.s, ':') case Some(p) => p case None => (ty.sourceModule, v.s);
      match FindIdentity(ids, ty.identityValues.value, m, n)
      case None => None
      case Some(i) => match ids[i].sid { case None => None case Some(sid) => Some(C.Integer(sid)) }
  }

  /** Always the qualified name. */
  function DecIdentity(ids: seq<Identity>, c: C.Value): Option<Json> {
    if !c.Integer? then None
    else
      match IdentityBySid(ids, AsI64(c.i), 0)
      case None => None
      case Some(i) => Some(JStr(ids[i].module_ + ":" + ids[i].name))
  }

  // ---------------------------------------------------------------- dispatch

  /** Types with no clean inverse or outside this model are refused here. */
  function TypeToCbor(ids: seq<Identity>, ty: Type, v: Json): Option<C.Value> {
    match ty.builtin
    case Int8 | Int16 | Int32 | Uint8 | Uint16 | Uint32 => EncInt(ty, v)
    case Int64 => EncWide(v, I64_MIN, I64_MAX)
    case Uint64 => EncWide(v, 0, U64_MAX)
    case Boolean => if v.JBool? then Some(C.Bool(v.b)) else None
    case Str => EncStr(ty, v)
    case Binary => EncBinary(ty, v)
    case Empty => if v == JArr([JNull]) then Some(C.Null) else None
    case Enumeration => EncEnum(ty, v)
    case Bits => EncBits(ty, v)
    case Identityref => EncIdentity(ids, ty, v)
    case _ => None
  }

  function TypeToJson(ids: seq<Identity>, ty: Type, c: C.Value): Option<Json> {
    match ty.builtin
    case Int8 | Int16 | Int32 | Uint8 | Uint16 | Uint32 => if c.Integer? then Some(JNum(AsI64(c.i))) else None
    case Int64 => if c.Integer? then Some(JStr(Print(AsI64(c.i)))) else None
    case Uint64 => if c.Integer? then Some(JStr(Print(c.i % 0x1_0000_0000_0000_0000))) else None
    case Boolean => if c.Bool? then Some(JBool(c.v)) else None
    case Str => if c.Text? then Some(JStr(c.s)) else None
    case Binary => if c.Bytes? then Some(JStr(Base64Encode(c.b))) else None
    case Empty => Some(JArr([JNull]))
    case Enumeration => DecEnum(ty, c)
    case Bits => DecBits(ty, c)
    case Identityref => DecIdentity(ids, c)
    case _ => None
  }

  // ---------------------------------------------------------------- canonical spellings

  predicate DistinctValues(enums: seq<EnumVal>) {
    forall i, j :: 0 <= i < j < |enums| ==> enums[i].value != enums[j].value
  }

  /** Names that read back as words. */
  predicate BitNamesAreWords(bits: seq<BitDef>) {
    forall i :: 0 <= i < |bits| ==> bits[i].name != "" && NoSpace(bits[i].name)
  }

  predicate DistinctIdentitySids(ids: seq<Identity>) {
    forall i, j :: 0 <= i < j < |ids| && ids[i].sid.Some? ==> ids[i].sid != ids[j].sid
  }

  /** What a type has to promise for its values to be told apart on the wire. */
  predicate TypeFit(ids: seq<Identity>, ty: Type) {
    match ty.builtin
    case Enumeration => DistinctValues(ty.enums)
    case Bits => DistinctBits(ty.bits) && BitNamesAreWords(ty.bits)
    case Identityref => DistinctIdentitySids(ids)
    case _ => true
  }

  /**
   * The spelling that decoding gives: whole numbers within 64 signed bits, numbers as text without superfluous signs
   * and zeros, padded base64 without spare bits, bit names in ascending position order with single blanks between
   * them, qualified identity names.
   */
  predicate Spelled(ty: Type, v: Json) {
    match ty.builtin
    case Int8 | Int16 | Int32 | Uint8 | Uint16 | Uint32 => v.JNum? && v.n <= I64_MAX
    case Int64 | Uint64 => v.JStr? && CanonNumber(v.s)
    case Binary => v.JStr? && CanonBase64(v.s)
    case Bits => v.JStr? && SingleBlanks(v.s) && InOrder(ty.bits, Words(v.s))
    case Identityref => v.JStr? && ':' in v.s
    case _ => true
  }

  /** Names of the type, in ascending order of their positions. */
  predicate InOrder(bits: seq<BitDef>, names: seq<string>) {
    PositionsOf(bits, names).Some? && Ascending(PositionsOf(bits, names).value)
  }

  predicate CanonLeaf(ids: seq<Identity>, ty: Type, v: Json) {
    TypeFit(ids, ty) && Spelled(ty, v)
  }

  lemma {:induction false} EnumInverse(enums: seq<EnumVal>, name: string)
    requires DistinctValues(enums) && EnumValue(enums, name).Some?
    ensures EnumName(enums, EnumValue(enums, name).value) == Some(name)
    ensures exists i :: 0 <= i < |enums| && enums[i].value == EnumValue(enums, name).value
    decreases |enums|
  {
    if enums[0].name != name {
      assert forall i :: 0 <= i < |enums[1..]| ==> enums[1..][i] == enums[i + 1];
      EnumInverse(enums[1..], name);
      var i :| 0 <= i < |enums[1..]| && enums[1..][i].value == EnumValue(enums, name).value;
      assert enums[i + 1].value == EnumValue(enums, name).value;
    }
  }

  /** Two ascending lists with the same members are the same list. */
  lemma {:induction false} AscendingUnique(a: seq<nat>, b: seq<nat>)
    requires Ascending(a) && Ascending(b) && forall p :: p in a <==> p in b
    ensures a == b
    decreases |a|
  {
    if a == [] {
      assert forall i :: 0 <= i < |b| ==> b[i] in b;
    } else {
      assert a[0] in a && a[0] in b;
      assert b[0] in b && b[0] in a;
      var j :| 0 <= j < |b| && b[j] == a[0];
      var i :| 0 <= i < |a| && a[i] == b[0];
      assert a[0] == b[0];
      forall p ensures p in a[1..] <==> p in b[1..] {
        if p in a[1..] { TailMember(a, b, p); }
        if p in b[1..] { TailMember(b, a, p); }
      }
      AscendingUnique(a[1..], b[1..]);
      assert a == [a[0]] + a[1..] && b == [b[0]] + b[1..];
    }
  }

  lemma {:induction false} TailMember(a: seq<nat>, b: seq<nat>, p: nat)
    requires a != [] && b != [] && a[0] == b[0] && Ascending(a) && p in a[1..] && (p in a ==> p in b)
    ensures p in b[1..]
  {
    var i :| 0 <= i < |a[1..]| && a[1..][i] == p;
    assert a[i + 1] == p && p in a && p != a[0];
    var j :| 0 <= j < |b| && b[j] == p;
    assert b[1..][j - 1] == p;
  }

  /** Lists of names with the same positions are the same. */
  lemma {:induction false} SamePositions(bits: seq<BitDef>, a: seq<string>, b: seq<string>)
    requires DistinctBits(bits) && PositionsOf(bits, a).Some? && PositionsOf(bits, a) == PositionsOf(bits, b)
    ensures a == b
    decreases |a|
  {
    if a != [] && b != [] {
      var p := PositionOf(bits, a[0]).value;
      assert PositionsOf(bits, a).value[0] == p && PositionsOf(bits, b).value[0] == PositionOf(bits, b[0]).value;
      NameAtInverse(bits, a[0], p);
      NameAtInverse(bits, b[0], p);
      assert PositionsOf(bits, a).value[1..] == PositionsOf(bits, a[1..]).value;
      assert PositionsOf(bits, b).value[1..] == PositionsOf(bits, b[1..]).value;
      SamePositions(bits, a[1..], b[1..]);
      assert a == [a[0]] + a[1..] && b == [b[0]] + b[1..];
    }
  }

  /** Names in ascending order come back from the bits form exactly. */
  lemma {:induction false} OrderedNamesRoundTrip(bits: seq<BitDef>, names: seq<string>)
    requires DistinctBits(bits) && PositionsOf(bits, names).Some? && Ascending(PositionsOf(bits, names).value)
    ensures EncodeNames(bits, names).Some? && DecodeNames(bits, EncodeNames(bits, names).value) == Some(names)
  {
    BitsRoundTrip(bits, names);
    var r := DecodeNames(bits, EncodeNames(bits, names).value).value;
    PositionsBounded(bits, names);
    PositionsBounded(bits, r);
    var a, b := PositionsOf(bits, names).value, PositionsOf(bits, r).value;
    forall p ensures p in a <==> p in b {
      if p in a {
        var n :| n in names && PositionOf(bits, n) == Some(p);
        assert n in r;
      }
      if p in b {
        var n :| n in r && PositionOf(bits, n) == Some(p);
        assert n in names;
      }
    }
    AscendingUnique(a, b);
    SamePositions(bits, names, r);
  }

  lemma {:induction false} IdentityRoundTrip(ids: seq<Identity>, ty: Type, s: string)
    requires DistinctIdentitySids(ids) && ':' in s && EncIdentity(ids, ty, JStr(s)).Some?
    ensures DecIdentity(ids, EncIdentity(ids, ty, JStr(s)).value) == Some(JStr(s))
  {
    SplitOnceParts(s, ':');
    var (m, n) := SplitOnce(s, ':').value;
    var i := FindIdentity(ids, ty.identityValues.value, m, n).value;
    var sid := ids[i].sid.value;
    assert AsI64(sid) == sid;
    var j := IdentityBySid(ids, sid, 0);
    assert j == Some(i);
  }

  lemma {:induction false} SplitOnceParts(s: string, c: char)
    requires c in s
    ensures SplitOnce(s, c).Some? && SplitOnce(s, c).value.0 + [c] + SplitOnce(s, c).value.1 == s
    decreases |s|
  {
    if s[0] == c {
      assert "" + [c] + s[1..] == s;
    } else {
      assert c in s[1..] by { var i :| 0 <= i < |s| && s[i] == c; assert s[1..][i - 1] == c; }
      SplitOnceParts(s[1..], c);
      var (a, b) := SplitOnce(s[1..], c).value;
      assert [s[0]] + a + [c] + b == [s[0]] + (a + [c] + b);
      assert [s[0]] + s[1..] == s;
    }
  }

  lemma {:induction false} IntExactly(ty: Type, v: Json)
    requires EncInt(ty, v).Some?
    ensures EncInt(ty, v).value.Integer? && (AsI64(EncInt(ty, v).value.i) == v.n <==> v.n <= I64_MAX)
  {
  }

  /** A 64-bit value as the decoder reads it off an integer. */
  function Narrowed(n: int, lo: int): int {
    if lo == 0 then n % 0x1_0000_0000_0000_0000 else AsI64(n)
  }

  lemma {:induction false} NarrowedSame(n: int, lo: int, hi: int)
    requires (lo == I64_MIN && hi == I64_MAX) || (lo == 0 && hi == U64_MAX)
    requires lo <= n <= hi
    ensures Narrowed(n, lo) == n
  {
  }

  lemma {:induction false} WideExactly(v: Json, lo: int, hi: int)
    requires (lo == I64_MIN && hi == I64_MAX) || (lo == 0 && hi == U64_MAX)
    requires EncWide(v, lo, hi).Some?
    ensures EncWide(v, lo, hi).value.Integer?
    ensures Print(Narrowed(EncWide(v, lo, hi).value.i, lo)) == v.s <==> CanonNumber(v.s)
  {
    NumberExactly(v.s, lo, hi);
    NarrowedSame(ParseInt(v.s, lo, hi).value, lo, hi);
  }

  lemma {:induction false} BitsExactly(ty: Type, v: Json)
    requires DistinctBits(ty.bits) && BitNamesAreWords(ty.bits) && EncBits(ty, v).Some?
    ensures DecBits(ty, EncBits(ty, v).value) == Some(v) <==>
      v.JStr? && SingleBlanks(v.s) && InOrder(ty.bits, Words(v.s))
  {
    var names := BitNames(v).value;
    BitsRoundTrip(ty.bits, names);
    var r := DecodeNames(ty.bits, EncodeNames(ty.bits, names).value).value;
    NamesAreWords(ty.bits, r);
    JoinIsSpaced(r);
    WordsOfJoin(r);
    if v.JStr? && SingleBlanks(v.s) && InOrder(ty.bits, names) {
      OrderedNamesRoundTrip(ty.bits, names);
      BlanksExactly(v.s);
    }
  }

  lemma {:induction false} NamesAreWords(bits: seq<BitDef>, names: seq<string>)
    requires DistinctBits(bits) && BitNamesAreWords(bits) && PositionsOf(bits, names).Some?
    ensures AreWords(names)
    decreases |names|
  {
    if names != [] {
      NamesAreWords(bits, names[1..]);
      var p := PositionOf(bits, names[0]).value;
      NameAtInverse(bits, names[0], p);
      forall i | 0 <= i < |names| ensures names[i] != "" && NoSpace(names[i]) {
        if i > 0 { assert names[i] == names[1..][i - 1]; }
      }
    }
  }

  lemma {:induction false} IdentityExactly(ids: seq<Identity>, ty: Type, v: Json)
    requires DistinctIdentitySids(ids) && EncIdentity(ids, ty, v).Some?
    ensures DecIdentity(ids, EncIdentity(ids, ty, v).value) == Some(v) <==> ':' in v.s
  {
    if ':' in v.s { IdentityRoundTrip(ids, ty, v.s); }
  }

  /** Of the values that a fit type accepts, decoding gives back exactly those in the canonical spelling. */
  lemma {:induction false} LeafExactly(ids: seq<Identity>, ty: Type, v: Json)
    requires TypeFit(ids, ty) && TypeToCbor(ids, ty, v).Some?
    ensures TypeToJson(ids, ty, TypeToCbor(ids, ty, v).value) == Some(v) <==> Spelled(ty, v)
  {
    match ty.builtin
    case Int8 | Int16 | Int32 | Uint8 | Uint16 | Uint32 => IntExactly(ty, v);
    case Int64 => WideExactly(v, I64_MIN, I64_MAX);
    case Uint64 => WideExactly(v, 0, U64_MAX);
    case Binary => Base64Exactly(v.s);
    case Enumeration => EnumInverse(ty.enums, v.s);
    case Bits => BitsExactly(ty, v);
    case Identityref => IdentityExactly(ids, ty, v);
    case _ =>
  }

  // ---------------------------------------------------------------- from the wire and back

  /** Values as a device may send them for types whose wire form is one to one, within their restrictions. */
  predicate OnWire(ty: Type, c: C.Value) {
    match ty.builtin
    case Int8 | Int16 | Int32 | Uint8 | Uint16 | Uint32 => c.Integer? && I64_MIN <= c.i <= I64_MAX && InRanges(c.i, ty.ranges)
    case Int64 => c.Integer? && I64_MIN <= c.i <= I64_MAX
    case Uint64 => c.Integer? && 0 <= c.i <= U64_MAX
    case Boolean => c.Bool?
    case Str => c.Text? && InRanges(AsI64(|c.s|), ty.ranges)
    case Binary => c.Bytes? && InRanges(AsI64(|c.b|), ty.ranges)
    case Empty => c == C.Null
    case _ => false
  }

  lemma {:induction false} WideBack(n: int, lo: int, hi: int)
    requires (lo == I64_MIN && hi == I64_MAX) || (lo == 0 && hi == U64_MAX)
    requires lo <= n <= hi
    ensures Narrowed(n, lo) == n && CanonNumber(Print(n)) && EncWide(JStr(Print(n)), lo, hi) == Some(C.Integer(n))
  {
    NarrowedSame(n, lo, hi);
    PrintParse(n, lo, hi);
    PrintIsCanon(n);
  }

  /** What the device sent is decoded to a value in canonical spelling, which encodes to what it sent. */
  lemma {:induction false} WireBack(ids: seq<Identity>, ty: Type, c: C.Value)
    requires OnWire(ty, c)
    ensures TypeToJson(ids, ty, c).Some? && Spelled(ty, TypeToJson(ids, ty, c).value)
    ensures TypeToCbor(ids, ty, TypeToJson(ids, ty, c).value) == Some(c)
  {
    match ty.builtin
    case Int64 => WideBack(c.i, I64_MIN, I64_MAX);
    case Uint64 => WideBack(c.i, 0, U64_MAX);
    case Binary =>
      Base64RoundTrip(c.b);
      EncodeIsCanon(c.b);
    case _ =>
  }

  lemma {:induction false} SpansInRange(bytes: seq<byte>, gap: nat)
    requires gap + |bytes| < C.U64
    ensures C.AllInRange(Spans(bytes, gap))
    decreases |bytes|
  {
    if bytes == [] {
    } else if bytes[0] == 0 {
      SpansInRange(bytes[1..], gap + 1);
    } else {
      var rest := Spans(bytes[Run(bytes)..], 0);
      SpansInRange(bytes[Run(bytes)..], 0);
      var tail := [C.Value.Bytes(bytes[..Run(bytes)])] + rest;
      assert tail[1..] == rest;
      if gap > 0 { assert (GapItem(gap) + tail)[1..] == tail; } else { assert GapItem(gap) + tail == tail; }
    }
  }

  /** Leaf values stay within the integers CBOR can carry. */
  lemma {:induction false} LeafInRange(ids: seq<Identity>, ty: Type, v: Json)
    requires TypeToCbor(ids, ty, v).Some?
    ensures C.InRange(TypeToCbor(ids, ty, v).value)
  {
    if ty.builtin == Bits {
      var names := BitNames(v).value;
      var ps := PositionsOf(ty.bits, names).value;
      PositionsBounded(ty.bits, names);
      SpansInRange(Pack(ps), 0);
    }
  }

  /** The leaf codec of a schema's identities. */
  function Codec(ids: seq<Identity>): LeafCodec {
    LeafCodec((ty, v) => TypeToCbor(ids, ty, v), (ty, c) => TypeToJson(ids, ty, c), (ty, v) => CanonLeaf(ids, ty, v))
  }

  /** It is faithful on canonical values and stays in range, as the tree round trip asks. */
  lemma {:induction false} CodecIsFaithful(ids: seq<Identity>)
    ensures YangRoundTrip.Faithful(Codec(ids)) && YangRoundTrip.Bounded(Codec(ids))
  {
    forall ty, v | Codec(ids).canon(ty, v) && Codec(ids).enc(ty, v).Some?
      ensures Codec(ids).dec(ty, Codec(ids).enc(ty, v).value) == Some(v)
    {
      LeafExactly(ids, ty, v);
    }
    forall ty, v | Codec(ids).enc(ty, v).Some? ensures C.InRange(Codec(ids).enc(ty, v).value) {
      LeafInRange(ids, ty, v);
    }
  }
}
