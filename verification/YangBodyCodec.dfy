// The node-body codec as the source runs it: loops over fields, entries and list items that push onto result vectors,
// proved against the encoding and decoding functions.

module YangBodyCodec {
  import opened Bytes
  import opened YangSchema
  import opened YangJson
  import opened YangBody
  import C = Cbor

  /** Results so far, in front of the rest. */
  function Ahead<T>(front: seq<T>, rest: Option<seq<T>>): Option<seq<T>> {
    match rest case None => None case Some(xs) => Some(front + xs)
  }

  lemma {:induction false} AheadOne<T>(front: seq<T>, x: T, rest: Option<seq<T>>)
    ensures Ahead([], rest) == rest && Ahead(front, Cons(x, rest)) == Ahead(front + [x], rest)
  {
    if rest.Some? {
      assert [] + rest.value == rest.value;
      assert front + ([x] + rest.value) == front + [x] + rest.value;
    }
  }

  lemma {:induction false} AheadDone<T>(front: seq<T>)
    ensures Ahead(front, Some([])) == Some(front)
  {
    assert front + [] == front;
  }

  method EncodeLeafValue(cx: Context, n: nat, v: Json, cont: bool) returns (r: Option<C.Value>)
    requires n < |cx.s.nodes|
    ensures r == EncLeaf(cx, n, v, cont)
  {
    if cx.s.nodes[n].ty.None? { return None; }
    r := cx.leaf.enc(cx.s.nodes[n].ty.value, v);
    if r.None? && cont { r := Some(Generic(v)); }
  }

  method EncodeLeafList(cx: Context, n: nat, items: seq<Json>, cont: bool) returns (r: Option<seq<C.Value>>)
    requires n < |cx.s.nodes|
    ensures r == EncLeaves(cx, n, items, cont)
  {
    var out: seq<C.Value> := [];
    AheadOne([], C.Null, EncLeaves(cx, n, items, cont));
    for i := 0 to |items|
      invariant Ahead(out, EncLeaves(cx, n, items[i..], cont)) == EncLeaves(cx, n, items, cont)
    {
      assert items[i..][0] == items[i] && items[i..][1..] == items[i + 1..];
      var x := EncodeLeafValue(cx, n, items[i], cont);
      if x.None? { return None; }
      AheadOne(out, x.value, EncLeaves(cx, n, items[i + 1..], cont));
      out := out + [x.value];
    }
    AheadDone(out);
    return Some(out);
  }

  /** Whether a required child is absent from the fields given. */
  method RequiredMissing(cx: Context, n: nat, fields: seq<Field>) returns (missing: bool)
    requires Sound(cx.s) && n < |cx.s.nodes|
    ensures missing == Missing(cx, At(n), fields)
  {
    var children := SpliceChildren(cx.s.nodes, cx.s.nodes[n].children, n + 1);
    SplicedValid(cx.s.nodes, cx.s.nodes[n].children, n + 1);
    for i := 0 to |children|
      invariant forall j :: 0 <= j < i ==> !MissingChild(cx, n, fields, children[j])
    {
      var c := children[i];
      if (cx.cf == Ipatch || cx.cf == Put) && cx.s.nodes[c].config == Some(false) { continue; }
      var isKey := KeyLookup(cx.s, n, c);
      if (cx.s.nodes[c].mandatory || isKey) && !HasKey(fields, cx.s.nodes[c].name) {
        assert MissingChild(cx, n, fields, c) && c in children;
        return true;
      }
    }
    return false;
  }

  method KeyLookup(s: Schema, n: nat, c: nat) returns (isKey: bool)
    requires Sound(s) && n < |s.nodes| && c < |s.nodes|
    ensures isKey == IsKeyOf(s, n, c)
  {
    var keys := s.nodes[n].keys;
    for i := 0 to |keys|
      invariant forall j :: 0 <= j < i ==> LocalName(s.nodes[keys[j]].name) != LocalName(s.nodes[c].name)
    {
      if LocalName(s.nodes[keys[i]].name) == LocalName(s.nodes[c].name) { return true; }
    }
    return false;
  }

  /** A body: its fields in their own order, a failing lookup skipped under the flag, then the required children. */
  method EncodeBody(cx: Context, scope: Scope, fields: seq<Field>, cont: bool) returns (r: Option<C.Value>)
    requires Sound(cx.s) && ScopeOk(cx.s, scope)
    ensures r == EncBody(cx, scope, fields, cont)
    decreases fields, 2
  {
    var entries := EncodeFields(cx, scope, fields, cont);
    if entries.None? { return None; }
    if scope.At? && !cont {
      var missing := RequiredMissing(cx, scope.n, fields);
      if missing { return None; }
    }
    return Some(C.Map(entries.value));
  }

  lemma {:induction false} FieldsUnfold(cx: Context, scope: Scope, fields: seq<Field>, cont: bool)
    requires Sound(cx.s) && ScopeOk(cx.s, scope) && fields != []
    ensures var rest := EncFields(cx, scope, fields[1..], cont);
      EncFields(cx, scope, fields, cont) ==
        match FindSid(cx.s, scope, fields[0].key)
        case None => if cont then rest else None
        case Some((c, sid)) =>
          match EncField(cx, c, fields[0], cont)
          case None => None
          case Some(x) => Cons(C.Entry(C.Integer(AsI64(sid - BaseOf(cx.s, scope))), x), rest)
  {
  }

  method EncodeFields(cx: Context, scope: Scope, fields: seq<Field>, cont: bool) returns (r: Option<seq<C.Entry>>)
    requires Sound(cx.s) && ScopeOk(cx.s, scope)
    ensures r == EncFields(cx, scope, fields, cont)
    decreases fields, 1
  {
    var base := BaseOf(cx.s, scope);
    var entries: seq<C.Entry> := [];
    AheadOne([], C.Entry(C.Null, C.Null), EncFields(cx, scope, fields, cont));
    for i := 0 to |fields|
      invariant Ahead(entries, EncFields(cx, scope, fields[i..], cont)) == EncFields(cx, scope, fields, cont)
    {
      assert fields[i..][0] == fields[i] && fields[i..][1..] == fields[i + 1..];
      FieldsUnfold(cx, scope, fields[i..], cont);
      var found := FindSid(cx.s, scope, fields[i].key);
      if found.None? {
        if cont { continue; }
        return None;
      }
      var x := EncodeField(cx, found.value.0, fields[i], cont);
      if x.None? { return None; }
      var e := C.Entry(C.Integer(AsI64(found.value.1 as int - base as int)), x.value);
      AheadOne(entries, e, EncFields(cx, scope, fields[i + 1..], cont));
      entries := entries + [e];
    }
    AheadDone(entries);
    return Some(entries);
  }

  method EncodeField(cx: Context, c: nat, f: Field, cont: bool) returns (r: Option<C.Value>)
    requires Sound(cx.s) && c < |cx.s.nodes|
    ensures r == EncField(cx, c, f, cont)
    decreases f, 5
  {
    r := EncodeNodeValue(cx, c, f.val, cont);
  }

  method EncodeObject(cx: Context, n: nat, v: Json, cont: bool) returns (r: Option<C.Value>)
    requires Sound(cx.s) && n < |cx.s.nodes|
    ensures r == EncObject(cx, n, v, cont)
    decreases v, 3
  {
    if !v.JObj? { return None; }
    r := EncodeBody(cx, At(n), v.fields, cont);
  }

  method EncodeListEntries(cx: Context, n: nat, items: seq<Json>, cont: bool) returns (r: Option<seq<C.Value>>)
    requires Sound(cx.s) && n < |cx.s.nodes|
    ensures r == EncEntries(cx, n, items, cont)
    decreases items, 1
  {
    var out: seq<C.Value> := [];
    AheadOne([], C.Null, EncEntries(cx, n, items, cont));
    for i := 0 to |items|
      invariant Ahead(out, EncEntries(cx, n, items[i..], cont)) == EncEntries(cx, n, items, cont)
    {
      assert items[i..][0] == items[i] && items[i..][1..] == items[i + 1..];
      var x := EncodeObject(cx, n, items[i], cont);
      if x.None? { return None; }
      AheadOne(out, x.value, EncEntries(cx, n, items[i + 1..], cont));
      out := out + [x.value];
    }
    AheadDone(out);
    return Some(out);
  }

  method EncodeSide(cx: Context, n: nat, f: Field, cont: bool) returns (r: Option<C.Value>)
    requires Sound(cx.s) && n < |cx.s.nodes|
    ensures r == EncSide(cx, n, f, cont)
    decreases f, 3
  {
    var side := FindChild(cx.s, n, f.key);
    if side.None? { return None; }
    r := EncodeObject(cx, side.value, f.val, cont);
  }

  /** Encode a value for a node, whatever kind it is. */
  method EncodeNodeValue(cx: Context, n: nat, v: Json, cont: bool) returns (r: Option<C.Value>)
    requires Sound(cx.s) && n < |cx.s.nodes|
    ensures r == EncNode(cx, n, v, cont)
    decreases v, 4
  {
    match cx.s.nodes[n].kw
    case Leaf => r := EncodeLeafValue(cx, n, v, cont);
    case LeafList =>
      if !v.JArr? { return None; }
      var items := EncodeLeafList(cx, n, v.items, cont);
      r := AsArray(items);
    case Container | Input | Output =>
      r := EncodeObject(cx, n, v, cont);
      if r.None? && cont { r := Some(C.Map([])); }
    case List =>
      r := None;
      if v.JArr? {
        var items := EncodeListEntries(cx, n, v.items, cont);
        r := AsArray(items);
      } else if v.JObj? && IsSequence(cx.cf) {
        r := EncodeBody(cx, At(n), v.fields, cont);
      }
      if r.None? && cont { r := Some(C.Array([])); }
    case Rpc | Action =>
      if !v.JObj? { return None; }
      if |v.fields| == 1 && v.fields[0].key in {"input", "output"} {
        r := EncodeSide(cx, n, v.fields[0], cont);
      } else {
        var side := FindChild(cx.s, n, "input");
        r := EncodeBody(cx, At(if side.Some? then side.value else n), v.fields, cont);
      }
    case _ => return None;
  }

  method DecodeLeafList(cx: Context, n: nat, items: seq<C.Value>) returns (r: Option<seq<Json>>)
    requires n < |cx.s.nodes|
    ensures r == DecLeaves(cx, n, items)
  {
    var out: seq<Json> := [];
    AheadOne([], JNull, DecLeaves(cx, n, items));
    for i := 0 to |items|
      invariant Ahead(out, DecLeaves(cx, n, items[i..])) == DecLeaves(cx, n, items)
    {
      assert items[i..][0] == items[i] && items[i..][1..] == items[i + 1..];
      var x := DecLeaf(cx, n, items[i]);
      if x.None? { return None; }
      AheadOne(out, x.value, DecLeaves(cx, n, items[i + 1..]));
      out := out + [x.value];
    }
    AheadDone(out);
    return Some(out);
  }

  method DecodeListEntries(cx: Context, n: nat, items: seq<C.Value>) returns (r: Option<seq<Json>>)
    requires Sound(cx.s) && n < |cx.s.nodes|
    ensures r == DecItems(cx, n, items)
    decreases items, 1
  {
    var out: seq<Json> := [];
    AheadOne([], JNull, DecItems(cx, n, items));
    for i := 0 to |items|
      invariant Ahead(out, DecItems(cx, n, items[i..])) == DecItems(cx, n, items)
    {
      assert items[i..][0] == items[i] && items[i..][1..] == items[i + 1..];
      var x := DecodeBody(cx, At(n), items[i]);
      if x.None? { return None; }
      AheadOne(out, x.value, DecItems(cx, n, items[i + 1..]));
      out := out + [x.value];
    }
    AheadDone(out);
    return Some(out);
  }

  /** A map keyed by delta-SID, as an object in the order received. */
  method DecodeBody(cx: Context, scope: Scope, c: C.Value) returns (r: Option<Json>)
    requires Sound(cx.s) && ScopeOk(cx.s, scope)
    ensures r == DecBody(cx, scope, c)
    decreases c, 3, 0
  {
    if !c.Map? { return None; }
    var fields := DecodeEntries(cx, BaseOf(cx.s, scope), c.entries);
    return if fields.None? then None else Some(JObj(fields.value));
  }

  method DecodeEntries(cx: Context, base: i64, entries: seq<C.Entry>) returns (r: Option<seq<Field>>)
    requires Sound(cx.s)
    ensures r == DecEntries(cx, base, entries, [])
    decreases entries, 2
  {
    var obj: seq<Field> := [];
    for i := 0 to |entries|
      invariant DecEntries(cx, base, entries[i..], obj) == DecEntries(cx, base, entries, [])
    {
      assert entries[i..][0] == entries[i] && entries[i..][1..] == entries[i + 1..];
      var f := DecodeEntry(cx, base, entries[i]);
      if f.None? { return None; }
      obj := Insert(obj, f.value);
    }
    return Some(obj);
  }

  method DecodeEntry(cx: Context, base: i64, e: C.Entry) returns (r: Option<Field>)
    requires Sound(cx.s)
    ensures r == DecEntry(cx, base, e)
    decreases e, 5
  {
    if !e.key.Integer? { return None; }
    var delta := AsI64(e.key.i);
    var sid := AsI64(delta + base);
    if sid !in cx.s.index { return None; }
    var child := cx.s.index[sid];
    var v := DecodeNodeValue(cx, child, e.val);
    return if v.None? then None else Some(Field(cx.s.nodes[child].name, v.value));
  }

  /** A flat map for an rpc or action, put under the side its first key belongs to. */
  method DecodeRpc(cx: Context, n: nat, c: C.Value) returns (r: Option<Json>)
    requires Sound(cx.s) && n < |cx.s.nodes| && cx.s.nodes[n].kw in {Rpc, Action}
    ensures r == DecNode(cx, n, c)
    decreases c, 3, 2
  {
    if !c.Map? { return None; }
    if c.entries == [] { return Some(JObj([])); }
    if !c.entries[0].key.Integer? { return None; }
    var base := if cx.s.nodes[n].sid.Some? then cx.s.nodes[n].sid.value else 0;
    var side := FindSide(cx.s, n, AsI64(AsI64(c.entries[0].key.i) + base));
    if side.None? { return None; }
    var decoded := DecodeBody(cx, At(side.value.1), c);
    return if decoded.None? then None else Some(JObj([Field(side.value.0, decoded.value)]));
  }

  /** Decode a value for a node, whatever kind it is. */
  method DecodeNodeValue(cx: Context, n: nat, c: C.Value) returns (r: Option<Json>)
    requires Sound(cx.s) && n < |cx.s.nodes|
    ensures r == DecNode(cx, n, c)
    decreases c, 4
  {
    match cx.s.nodes[n].kw
    case Leaf => return DecLeaf(cx, n, c);
    case LeafList =>
      if !c.Array? { return None; }
      var items := DecodeLeafList(cx, n, c.items);
      return AsList(items);
    case Container | Input | Output => r := DecodeBody(cx, At(n), c);
    case List =>
      if c.Array? {
        var items := DecodeListEntries(cx, n, c.items);
        return AsList(items);
      }
      if !c.Map? || !IsSequence(cx.cf) { return None; }
      r := DecodeBody(cx, At(n), c);
    case Rpc | Action =>
      r := DecodeRpc(cx, n, c);
    case _ => return None;
  }

  /** The side, input before output, one of whose data children has this SID. */
  method FindSide(s: Schema, n: nat, sid: i64) returns (r: Option<(string, nat)>)
    requires Sound(s) && n < |s.nodes|
    ensures r == SideOf(s, n, sid)
  {
    var input := FindChild(s, n, "input");
    if input.Some? {
      var has := AnyChildHas(s, input.value, sid);
      if has { return Some(("input", input.value)); }
    }
    var output := FindChild(s, n, "output");
    if output.Some? {
      var has := AnyChildHas(s, output.value, sid);
      if has { return Some(("output", output.value)); }
    }
    return None;
  }

  method AnyChildHas(s: Schema, side: nat, sid: i64) returns (has: bool)
    requires Sound(s) && side < |s.nodes|
    ensures has == SideHas(s, side, sid)
  {
    var children := SpliceChildren(s.nodes, s.nodes[side].children, side + 1);
    SplicedValid(s.nodes, s.nodes[side].children, side + 1);
    for i := 0 to |children|
      invariant forall j :: 0 <= j < i ==> s.nodes[children[j]].sid != Some(sid)
    {
      if s.nodes[children[i]].sid == Some(sid) {
        assert children[i] in children;
        return true;
      }
    }
    return false;
  }
}
