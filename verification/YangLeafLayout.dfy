// What each leaf type is on the wire and as text (RFC 9254 section 6, RFC 7951 section 6), type by type: which values are
// accepted, what they are written as, and what comes back of what a device sends.

module YangLeafLayout {
  import opened Bytes
  import opened YangBits
  import opened YangIdentity
  import opened YangJson
  import opened YangLeaf
  import opened YangSchema
  import opened YangText
  import C = Cbor

  // ---------------------------------------------------------------- restrictions

  /** A bound as a 64-bit integer: what lies outside is the nearest one. */
  function Bound(v: int): int {
    if v > 0x7FFF_FFFF_FFFF_FFFF then 0x7FFF_FFFF_FFFF_FFFF
    else if v < -0x8000_0000_0000_0000 then -0x8000_0000_0000_0000
    else v
  }

  /** Some pair of bounds holds the number, or there are none. */
  predicate Allowed(n: int, ranges: seq<(int, int)>) {
    ranges == [] || exists i :: 0 <= i < |ranges| && Bound(ranges[i].0) <= n <= Bound(ranges[i].1)
  }

  lemma AllowedIs(n: i64, ranges: seq<(int, int)>)
    ensures InRanges(n, ranges) <==> Allowed(n, ranges)
  {
  }

  // ---------------------------------------------------------------- names

  /** The first enumeration value that is called so. */
  lemma {:induction false} EnumByName(enums: seq<EnumVal>, name: string)
    ensures match EnumValue(enums, name)
      case None => forall i :: 0 <= i < |enums| ==> enums[i].name != name
      case Some(v) =>
        exists i :: 0 <= i < |enums| && enums[i] == EnumVal(name, v) && forall j :: 0 <= j < i ==> enums[j].name != name
    decreases |enums|
  {
    if enums != [] && enums[0].name != name {
      EnumByName(enums[1..], name);
      assert forall i :: 0 < i < |enums| ==> enums[i] == enums[1..][i - 1];
      match EnumValue(enums[1..], name)
      case None =>
      case Some(v) =>
        var i :|
          && 0 <= i < |enums[1..]| && enums[1..][i] == EnumVal(name, v)
          && forall j :: 0 <= j < i ==> enums[1..][j].name != name;
        assert enums[i + 1] == EnumVal(name, v);
    }
  }

  /** The first one with this value. */
  lemma {:induction false} EnumByValue(enums: seq<EnumVal>, value: int)
    ensures match EnumName(enums, value)
      case None => forall i :: 0 <= i < |enums| ==> enums[i].value != value
      case Some(name) =>
        exists i :: 0 <= i < |enums| && enums[i].name == name && enums[i].value == value
          && forall j :: 0 <= j < i ==> enums[j].value != value
    decreases |enums|
  {
    if enums != [] && enums[0].value != value {
      EnumByValue(enums[1..], value);
      assert forall i :: 0 < i < |enums| ==> enums[i] == enums[1..][i - 1];
      match EnumName(enums[1..], value)
      case None =>
      case Some(name) =>
        var i :| 0 <= i < |enums[1..]| && enums[1..][i].name == name && enums[1..][i].value == value
          && forall j :: 0 <= j < i ==> enums[1..][j].value != value;
        assert enums[i + 1].name == name;
    }
  }

  /** The first identity of the list that is in this module and called so. */
  lemma {:induction false} IdentityByName(ids: seq<Identity>, candidates: seq<nat>, m: string, n: string)
    ensures match FindIdentity(ids, candidates, m, n)
      case None =>
        forall i :: 0 <= i < |candidates| && candidates[i] < |ids| ==>
          !(ids[candidates[i]].module_ == m && ids[candidates[i]].name == n)
      case Some(x) => x in candidates && x < |ids| && ids[x].module_ == m && ids[x].name == n
    decreases |candidates|
  {
    if candidates != [] {
      IdentityByName(ids, candidates[1..], m, n);
      assert forall i :: 0 < i < |candidates| ==> candidates[i] == candidates[1..][i - 1];
    }
  }

  // ---------------------------------------------------------------- what a leaf is written as

  /** Integers of up to 32 bits are plain numbers within the type's ranges. */
  lemma SmallIntegerWritten(ids: seq<Identity>, ty: Type, v: Json)
    requires ty.builtin in {Int8, Int16, Int32, Uint8, Uint16, Uint32}
    ensures v.JNum? && -0x8000_0000_0000_0000 <= v.n <= 0x7FFF_FFFF_FFFF_FFFF ==>
      TypeToCbor(ids, ty, v) == if Allowed(v.n, ty.ranges) then Some(C.Integer(v.n)) else None
    ensures !v.JNum? ==> TypeToCbor(ids, ty, v) == None
  {
    if v.JNum? && -0x8000_0000_0000_0000 <= v.n <= 0x7FFF_FFFF_FFFF_FFFF { AllowedIs(v.n, ty.ranges); }
  }

  /** Those of 64 bits are decimal text, of their whole range. */
  lemma LargeIntegerWritten(ids: seq<Identity>, ty: Type, v: Json)
    requires ty.builtin in {Int64, Uint64}
    ensures TypeToCbor(ids, ty, v) ==
      if !v.JStr? then None
      else
        match ParseInt(v.s, if ty.builtin == Int64 then -0x8000_0000_0000_0000 else 0,
                       if ty.builtin == Int64 then 0x7FFF_FFFF_FFFF_FFFF else 0xFFFF_FFFF_FFFF_FFFF)
        case None => None
        case Some(n) => Some(C.Integer(n))
  {
    hide ParseInt;
  }

  /** Booleans are true and false, text is text, binary data is base64, and an empty leaf is [null] and null. */
  lemma PlainWritten(ids: seq<Identity>, ty: Type, v: Json)
    ensures var r := TypeToCbor(ids, ty, v);
      match ty.builtin
      case Boolean => r == if v.JBool? then Some(C.Bool(v.b)) else None
      case Str => r == if v.JStr? && Allowed(AsI64(|v.s|), ty.ranges) then Some(C.Text(v.s)) else None
      case Empty => r == if v == JArr([JNull]) then Some(C.Null) else None
      case Binary =>
        r == (if !v.JStr? || Base64Decode(v.s).None? || !Allowed(AsI64(|Base64Decode(v.s).value|), ty.ranges) then None
              else Some(C.Bytes(Base64Decode(v.s).value)))
      case _ => true
  {
    hide Base64Decode, Allowed, InRanges;
    if v.JStr? {
      AllowedIs(AsI64(|v.s|), ty.ranges);
      if Base64Decode(v.s).Some? { AllowedIs(AsI64(|Base64Decode(v.s).value|), ty.ranges); }
    }
  }

  /** Enumerations are the value of their name; identities the SID of their name, taken in the type's own module if unqualified. */
  lemma NamedWritten(ids: seq<Identity>, ty: Type, v: Json)
    ensures var r := TypeToCbor(ids, ty, v);
      match ty.builtin
      case Enumeration =>
        r == if !v.JStr? || EnumValue(ty.enums, v.s).None? then None else Some(C.Integer(EnumValue(ty.enums, v.s).value))
      case Identityref => !v.JStr? || ty.identityValues.None? ==> r == None
      case _ => true
  {
    hide EnumValue, FindIdentity;
  }

  lemma IdentityWritten(ids: seq<Identity>, ty: Type, m: string, n: string, candidates: seq<nat>)
    requires ty.builtin == Identityref && ty.identityValues == Some(candidates) && ':' !in m
    ensures TypeToCbor(ids, ty, JStr(m + ":" + n)) == SidOf(ids, FindIdentity(ids, candidates, m, n))
    ensures ':' !in n ==> TypeToCbor(ids, ty, JStr(n)) == SidOf(ids, FindIdentity(ids, candidates, ty.sourceModule, n))
  {
    hide FindIdentity, SplitOnce;
    SplitOnceAt(m, ':', n);
    assert m + [':'] + n == m + ":" + n;
    if ':' !in n { SplitNowhere(n, ':'); }
  }

  function SidOf(ids: seq<Identity>, x: Option<nat>): Option<C.Value> {
    if x.Some? && x.value < |ids| && ids[x.value].sid.Some? then Some(C.Integer(ids[x.value].sid.value)) else None
  }

  lemma {:induction false} SplitNowhere(s: string, c: char)
    requires c !in s
    ensures SplitOnce(s, c) == None
    decreases |s|
  {
    if s != "" { SplitNowhere(s[1..], c); }
  }

  // ---------------------------------------------------------------- what a leaf is read as

  /** What comes back of each kind of value; numbers beyond 64 bits lose their high bits. */
  lemma PlainRead(ids: seq<Identity>, ty: Type, c: C.Value)
    ensures var r := TypeToJson(ids, ty, c);
      match ty.builtin
      case Int8 | Int16 | Int32 | Uint8 | Uint16 | Uint32 => r == if c.Integer? then Some(JNum(AsI64(c.i))) else None
      case Int64 => r == if c.Integer? then Some(JStr(Print(AsI64(c.i)))) else None
      case Uint64 => r == if c.Integer? then Some(JStr(Print(c.i % 0x1_0000_0000_0000_0000))) else None
      case Boolean => r == if c.Bool? then Some(JBool(c.v)) else None
      case Str => r == if c.Text? then Some(JStr(c.s)) else None
      case Binary => r == if c.Bytes? then Some(JStr(Base64Encode(c.b))) else None
      case Empty => r == Some(JArr([JNull]))
      case _ => true
  {
    hide Print, Base64Encode, AsI64;
  }

  function Qualified(ids: seq<Identity>, x: Option<nat>): Option<Json> {
    if x.Some? && x.value < |ids| then Some(JStr(ids[x.value].module_ + ":" + ids[x.value].name)) else None
  }

  /** An enumeration value without a name stays a number; an identity is shown with its module, and must be known. */
  lemma NamedRead(ids: seq<Identity>, ty: Type, c: C.Value)
    ensures var r := TypeToJson(ids, ty, c);
      match ty.builtin
      case Enumeration =>
        r == (if !c.Integer? then None
              else if EnumName(ty.enums, c.i).Some? then Some(JStr(EnumName(ty.enums, c.i).value)) else Some(JNum(AsI64(c.i))))
      case Identityref =>
        r == (if !c.Integer? then None else Qualified(ids, IdentityBySid(ids, AsI64(c.i), 0)))
      case _ => true
  {
    hide EnumName, IdentityBySid, AsI64;
  }

  // ---------------------------------------------------------------- bits by name

  lemma {:induction false} BitByName(bits: seq<BitDef>, name: string)
    ensures match PositionOf(bits, name)
      case None => forall i :: 0 <= i < |bits| ==> bits[i].name != name
      case Some(p) => exists i :: 0 <= i < |bits| && bits[i] == BitDef(name, p)
    decreases |bits|
  {
    if bits != [] && bits[0].name != name {
      BitByName(bits[1..], name);
      assert forall i :: 0 < i < |bits| ==> bits[i] == bits[1..][i - 1];
      match PositionOf(bits[1..], name)
      case None =>
      case Some(p) =>
        var i :| 0 <= i < |bits[1..]| && bits[1..][i] == BitDef(name, p);
        assert bits[i + 1] == BitDef(name, p);
    }
  }

  /** A bit that the type does not define is left out when it is read. */
  lemma {:induction false} BitAtPosition(bits: seq<BitDef>, p: nat, rest: seq<nat>)
    ensures NamesAt(bits, [p] + rest) == (if NameAt(bits, p).Some? then [NameAt(bits, p).value] else []) + NamesAt(bits, rest)
    ensures match NameAt(bits, p)
      case None => forall i :: 0 <= i < |bits| ==> bits[i].position != p
      case Some(name) => exists i :: 0 <= i < |bits| && bits[i].name == name && bits[i].position == p
    decreases |bits|
  {
    assert ([p] + rest)[1..] == rest;
    if bits != [] && bits[0].position != p {
      BitAtPosition(bits[1..], p, rest);
      assert forall i :: 0 < i < |bits| ==> bits[i] == bits[1..][i - 1];
      match NameAt(bits[1..], p)
      case None =>
      case Some(name) =>
        var i :| 0 <= i < |bits[1..]| && bits[1..][i].name == name && bits[1..][i].position == p;
        assert bits[i + 1].name == name;
    }
  }
}
