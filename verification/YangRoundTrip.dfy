// Encoding a node body and decoding it again (RFC 9254 sections 4.2 and 4.4), for any leaf encoding that gives back the
// values it marks as canonical; key order included, and rpcs and actions on the side they came from.

module YangRoundTrip {
  import opened Bytes
  import opened YangSchema
  import opened YangJson
  import opened YangBody
  import C = Cbor
  import P = CborParse
  import R = CborRoundTrip

  /** Canonical leaf values are given back. */
  ghost predicate Faithful(leaf: LeafCodec) {
    forall ty, v {:trigger leaf.canon(ty, v)} ::
      leaf.canon(ty, v) && leaf.enc(ty, v).Some? ==> leaf.dec(ty, leaf.enc(ty, v).value) == Some(v)
  }

  /** `live` holds the roots and all children of its members, and the index finds every member that has a SID. */
  predicate Indexed(s: Schema, live: set<nat>)
    requires Sound(s)
  {
    && (forall i :: 0 <= i < |s.roots| ==> s.roots[i] in live)
    && (forall n, i :: n in live && n < |s.nodes| && 0 <= i < |s.nodes[n].children| ==> s.nodes[n].children[i] in live)
    && (forall n :: n in live && n < |s.nodes| && s.nodes[n].sid.Some? ==>
         s.nodes[n].sid.value in s.index && s.index[s.nodes[n].sid.value] == n)
  }

  /** Live rpcs and actions have a SID, and their sides are input and output nodes. */
  predicate RpcsOk(s: Schema, live: set<nat>)
    requires Sound(s)
  {
    forall n, name :: n in live && n < |s.nodes| && s.nodes[n].kw in {Rpc, Action} && name in {"input", "output"} ==>
      s.nodes[n].sid.Some? && (FindChild(s, n, name).Some? ==> s.nodes[FindChild(s, n, name).value].kw in {Input, Output})
  }

  lemma {:induction false} SplicedLive(s: Schema, live: set<nat>, ids: seq<nat>, low: nat)
    requires Sound(s) && Indexed(s, live) && AtLeast(s.nodes, ids, low) && forall i :: 0 <= i < |ids| ==> ids[i] in live
    ensures forall c :: c in Spliced(s.nodes, ids, low) ==> c in live
    decreases |s.nodes| - low, |ids|
  {
    if ids != [] {
      assert forall i :: 0 <= i < |ids[1..]| ==> ids[1..][i] == ids[i + 1];
      SplicedLive(s, live, ids[1..], low);
      if Transparent(s.nodes[ids[0]].kw) { SplicedLive(s, live, s.nodes[ids[0]].children, ids[0] + 1); }
    }
  }

  predicate ScopeLive(s: Schema, live: set<nat>, scope: Scope) {
    scope.At? ==> scope.n in live && scope.n < |s.nodes|
  }

  lemma {:induction false} FoundIsLive(s: Schema, live: set<nat>, scope: Scope, name: string)
    requires Sound(s) && Indexed(s, live) && ScopeLive(s, live, scope)
    ensures FindIn(s, scope, name).Some? ==> FindIn(s, scope, name).value in live
  {
    match scope
    case Tree => SplicedLive(s, live, s.roots, 0);
    case At(n) => SplicedLive(s, live, s.nodes[n].children, n + 1);
  }

  // ---------------------------------------------------------------- canonical values

  /** Every object has distinct keys and every leaf value is canonical; an rpc or action names one non-empty side. */
  predicate Canon(cx: Context, n: nat, v: Json)
    requires Sound(cx.s) && n < |cx.s.nodes|
    decreases v, 4
  {
    match cx.s.nodes[n].kw
    case Leaf => cx.s.nodes[n].ty.Some? ==> cx.leaf.canon(cx.s.nodes[n].ty.value, v)
    case LeafList => v.JArr? ==> CanonLeaves(cx, n, v.items)
    case List => (v.JArr? ==> CanonItems(cx, n, v.items)) && (v.JObj? ==> CanonBody(cx, At(n), v.fields))
    case Rpc | Action =>
      v.JObj? && |v.fields| == 1 && v.fields[0].key in {"input", "output"} && CanonSide(cx, n, v.fields[0])
    case _ => v.JObj? ==> CanonBody(cx, At(n), v.fields)
  }

  predicate CanonLeaves(cx: Context, n: nat, items: seq<Json>)
    requires n < |cx.s.nodes|
  {
    forall i :: 0 <= i < |items| && cx.s.nodes[n].ty.Some? ==> cx.leaf.canon(cx.s.nodes[n].ty.value, items[i])
  }

  predicate CanonSide(cx: Context, n: nat, f: Field)
    requires Sound(cx.s) && n < |cx.s.nodes|
    decreases f, 3
  {
    match FindChild(cx.s, n, f.key)
    case None => true
    case Some(side) => CanonObject(cx, side, f.val) && f.val != JObj([])
  }

  predicate CanonObject(cx: Context, n: nat, v: Json)
    requires Sound(cx.s) && n < |cx.s.nodes|
    decreases v, 3
  {
    v.JObj? ==> CanonBody(cx, At(n), v.fields)
  }

  predicate CanonItems(cx: Context, n: nat, items: seq<Json>)
    requires Sound(cx.s) && n < |cx.s.nodes|
    decreases items, 1
  {
    items == [] || (CanonObject(cx, n, items[0]) && CanonItems(cx, n, items[1..]))
  }

  predicate CanonBody(cx: Context, scope: Scope, fields: seq<Field>)
    requires Sound(cx.s) && ScopeOk(cx.s, scope)
    decreases fields, 2
  {
    DistinctKeys(fields) && CanonFields(cx, scope, fields)
  }

  predicate CanonFields(cx: Context, scope: Scope, fields: seq<Field>)
    requires Sound(cx.s) && ScopeOk(cx.s, scope)
    decreases fields, 1
  {
    fields == []
    || ((match FindIn(cx.s, scope, fields[0].key) case None => true case Some(c) => CanonField(cx, c, fields[0]))
        && CanonFields(cx, scope, fields[1..]))
  }

  predicate CanonField(cx: Context, c: nat, f: Field)
    requires Sound(cx.s) && c < |cx.s.nodes|
    decreases f, 5
  {
    Canon(cx, c, f.val)
  }

  // ---------------------------------------------------------------- the round trip

  /** What the theorems ask of a schema and a leaf encoding. */
  ghost predicate Ready(cx: Context, live: set<nat>) {
    Sound(cx.s) && Indexed(cx.s, live) && RpcsOk(cx.s, live) && Faithful(cx.leaf)
  }

  /** Decoding what strict encoding wrote gives the same value, key order included. */
  lemma {:induction false} NodeRoundTrip(cx: Context, live: set<nat>, n: nat, v: Json)
    requires Ready(cx, live) && n in live && n < |cx.s.nodes|
    requires Canon(cx, n, v) && EncNode(cx, n, v, false).Some?
    ensures DecNode(cx, n, EncNode(cx, n, v, false).value) == Some(v)
    decreases v, 4
  {
    match cx.s.nodes[n].kw
    case Leaf => LeafRoundTrip(cx, live, n, v);
    case LeafList => LeavesRoundTrip(cx, live, n, v.items);
    case Container | Input | Output => BodyRoundTrip(cx, live, At(n), v.fields);
    case List => if v.JArr? { ItemsRoundTrip(cx, live, n, v.items); } else { BodyRoundTrip(cx, live, At(n), v.fields); }
    case Rpc | Action =>
      RpcRoundTrip(cx, live, n, v.fields[0]);
      assert v.fields == [v.fields[0]];
    case _ =>
  }

  lemma {:induction false} LeafRoundTrip(cx: Context, live: set<nat>, n: nat, v: Json)
    requires Ready(cx, live) && n < |cx.s.nodes| && EncLeaf(cx, n, v, false).Some?
    requires cx.leaf.canon(cx.s.nodes[n].ty.value, v)
    ensures DecLeaf(cx, n, EncLeaf(cx, n, v, false).value) == Some(v)
  {
  }

  lemma {:induction false} LeavesRoundTrip(cx: Context, live: set<nat>, n: nat, items: seq<Json>)
    requires Ready(cx, live) && n < |cx.s.nodes| && CanonLeaves(cx, n, items) && EncLeaves(cx, n, items, false).Some?
    ensures DecLeaves(cx, n, EncLeaves(cx, n, items, false).value) == Some(items)
    decreases |items|
  {
    if items != [] {
      LeafRoundTrip(cx, live, n, items[0]);
      var rest := EncLeaves(cx, n, items[1..], false).value;
      LeavesRoundTrip(cx, live, n, items[1..]);
      var x := EncLeaf(cx, n, items[0], false).value;
      assert ([x] + rest)[1..] == rest && [items[0]] + items[1..] == items;
    }
  }

  lemma {:induction false} ObjectRoundTrip(cx: Context, live: set<nat>, n: nat, v: Json)
    requires Ready(cx, live) && n in live && n < |cx.s.nodes|
    requires CanonObject(cx, n, v) && EncObject(cx, n, v, false).Some?
    ensures DecBody(cx, At(n), EncObject(cx, n, v, false).value) == Some(v)
    decreases v, 3
  {
    BodyRoundTrip(cx, live, At(n), v.fields);
  }

  lemma {:induction false} ItemsRoundTrip(cx: Context, live: set<nat>, n: nat, items: seq<Json>)
    requires Ready(cx, live) && n in live && n < |cx.s.nodes|
    requires CanonItems(cx, n, items) && EncEntries(cx, n, items, false).Some?
    ensures DecItems(cx, n, EncEntries(cx, n, items, false).value) == Some(items)
    decreases items, 1
  {
    if items != [] {
      ObjectRoundTrip(cx, live, n, items[0]);
      ItemsRoundTrip(cx, live, n, items[1..]);
      var x, rest := EncObject(cx, n, items[0], false).value, EncEntries(cx, n, items[1..], false).value;
      assert ([x] + rest)[1..] == rest && [items[0]] + items[1..] == items;
    }
  }

  lemma {:induction false} BodyRoundTrip(cx: Context, live: set<nat>, scope: Scope, fields: seq<Field>)
    requires Ready(cx, live) && ScopeLive(cx.s, live, scope)
    requires CanonBody(cx, scope, fields) && EncBody(cx, scope, fields, false).Some?
    ensures DecBody(cx, scope, EncBody(cx, scope, fields, false).value) == Some(JObj(fields))
    decreases fields, 2
  {
    assert [] + fields == fields;
    assert StillDistinct([], fields);
    FieldsRoundTrip(cx, live, scope, fields, []);
  }

  /** The keys still to come are new. */
  ghost predicate StillDistinct(done: seq<Field>, fields: seq<Field>) {
    DistinctKeys(done + fields)
  }

  lemma {:induction false} InsertNew(done: seq<Field>, fields: seq<Field>)
    requires StillDistinct(done, fields) && fields != []
    ensures Insert(done, fields[0]) == done + [fields[0]] && StillDistinct(done + [fields[0]], fields[1..])
  {
    var f, all := fields[0], done + fields;
    assert done + [f] + fields[1..] == all;
    forall i | 0 <= i < |done| ensures done[i].key != f.key {
      assert all[i] == done[i] && all[|done|] == f;
    }
  }

  lemma {:induction false} FieldsRoundTrip(cx: Context, live: set<nat>, scope: Scope, fields: seq<Field>, done: seq<Field>)
    requires Ready(cx, live) && ScopeLive(cx.s, live, scope)
    requires StillDistinct(done, fields) && CanonFields(cx, scope, fields) && EncFields(cx, scope, fields, false).Some?
    ensures DecEntries(cx, BaseOf(cx.s, scope), EncFields(cx, scope, fields, false).value, done) == Some(done + fields)
    decreases fields, 1
  {
    if fields == [] {
      assert done + [] == done;
    } else {
      var f, rest := fields[0], fields[1..];
      assert done + fields == done + [f] + rest;
      FieldsParts(cx, scope, fields);
      FieldRoundTrip(cx, live, scope, f);
      InsertNew(done, fields);
      FieldsRoundTrip(cx, live, scope, rest, done + [f]);
      EntryThen(cx, BaseOf(cx.s, scope), EncEntry(cx, scope, f), EncFields(cx, scope, rest, false).value, done, f);
    }
  }

  /** A strict body encodes as the entry of its first field and the entries of the rest. */
  lemma {:induction false} FieldsParts(cx: Context, scope: Scope, fields: seq<Field>)
    requires Sound(cx.s) && ScopeOk(cx.s, scope) && fields != [] && EncFields(cx, scope, fields, false).Some?
    ensures FindSid(cx.s, scope, fields[0].key).Some?
    ensures EncField(cx, FindSid(cx.s, scope, fields[0].key).value.0, fields[0], false).Some?
    ensures EncFields(cx, scope, fields[1..], false).Some?
    ensures EncFields(cx, scope, fields, false).value
      == [EncEntry(cx, scope, fields[0])] + EncFields(cx, scope, fields[1..], false).value
  {
  }

  lemma {:induction false} EntryThen(cx: Context, base: i64, e: C.Entry, es: seq<C.Entry>, done: seq<Field>, f: Field)
    requires Sound(cx.s) && DecEntry(cx, base, e) == Some(f) && Insert(done, f) == done + [f]
    ensures DecEntries(cx, base, [e] + es, done) == DecEntries(cx, base, es, done + [f])
  {
    assert ([e] + es)[1..] == es;
  }

  /** The map entry of one field. */
  function EncEntry(cx: Context, scope: Scope, f: Field): C.Entry
    requires Sound(cx.s) && ScopeOk(cx.s, scope) && FindSid(cx.s, scope, f.key).Some?
    requires EncField(cx, FindSid(cx.s, scope, f.key).value.0, f, false).Some?
  {
    var (c, sid) := FindSid(cx.s, scope, f.key).value;
    C.Entry(C.Integer(AsI64(sid - BaseOf(cx.s, scope))), EncField(cx, c, f, false).value)
  }

  lemma {:induction false} FieldRoundTrip(cx: Context, live: set<nat>, scope: Scope, f: Field)
    requires Ready(cx, live) && ScopeLive(cx.s, live, scope) && FindSid(cx.s, scope, f.key).Some?
    requires var c := FindSid(cx.s, scope, f.key).value.0; CanonField(cx, c, f) && EncField(cx, c, f, false).Some?
    ensures DecEntry(cx, BaseOf(cx.s, scope), EncEntry(cx, scope, f)) == Some(f)
    decreases f, 6
  {
    hide Faithful, Indexed, RpcsOk, Forest, DecNode, EncNode, Canon;
    var (c, sid) := FindSid(cx.s, scope, f.key).value;
    ChildIndexed(cx, live, scope, f.key);
    AsI64Difference(sid, BaseOf(cx.s, scope));
    NodeRoundTrip(cx, live, c, f.val);
  }

  lemma {:induction false} ChildIndexed(cx: Context, live: set<nat>, scope: Scope, key: string)
    requires Ready(cx, live) && ScopeLive(cx.s, live, scope) && FindSid(cx.s, scope, key).Some?
    ensures var (c, sid) := FindSid(cx.s, scope, key).value; c in live && sid in cx.s.index && cx.s.index[sid] == c
  {
    FoundIsLive(cx.s, live, scope, key);
  }

  /** A non-empty side comes back under its own name: no other side has a data child with the first key's SID. */
  lemma {:induction false} RpcRoundTrip(cx: Context, live: set<nat>, n: nat, f: Field)
    requires Ready(cx, live) && n in live && n < |cx.s.nodes| && cx.s.nodes[n].kw in {Rpc, Action}
    requires f.key in {"input", "output"} && CanonSide(cx, n, f) && EncSide(cx, n, f, false).Some?
    ensures DecNode(cx, n, EncSide(cx, n, f, false).value) == Some(JObj([f]))
    decreases f, 3
  {
    hide Faithful, DecBody, Indexed, RpcsOk, Forest;
    var side := FindChild(cx.s, n, f.key).value;
    SideIsLive(cx, live, n, side);
    ObjectRoundTrip(cx, live, side, f.val);
    FirstKeyTellsSide(cx, live, n, f, side);
    DecOneSide(cx, n, EncObject(cx, side, f.val, false).value, f, side);
  }

  lemma {:induction false} SideIsLive(cx: Context, live: set<nat>, n: nat, side: nat)
    requires Ready(cx, live) && n in live && n < |cx.s.nodes| && side in cx.s.nodes[n].children
    ensures side in live && side < |cx.s.nodes|
  {
    ChildLink(cx.s.nodes, n, side);
    var k :| 0 <= k < |cx.s.nodes[n].children| && cx.s.nodes[n].children[k] == side;
  }

  lemma {:induction false} DecOneSide(cx: Context, n: nat, c: C.Value, f: Field, side: nat)
    requires Sound(cx.s) && n < |cx.s.nodes| && cx.s.nodes[n].kw in {Rpc, Action} && cx.s.nodes[n].sid.Some?
    requires c.Map? && c.entries != [] && c.entries[0].key.Integer?
    requires SideOf(cx.s, n, AsI64(AsI64(c.entries[0].key.i) + cx.s.nodes[n].sid.value)) == Some((f.key, side))
    requires side < |cx.s.nodes| && DecBody(cx, At(side), c) == Some(f.val)
    ensures DecNode(cx, n, c) == Some(JObj([f]))
  {
    hide DecBody, Forest, SideOf;
    assert DecSide(cx, Some((f.key, side)), c) == Some(JObj([Field(f.key, f.val)]));
  }

  lemma {:induction false} FirstKeyTellsSide(cx: Context, live: set<nat>, n: nat, f: Field, side: nat)
    requires Ready(cx, live) && n in live && n < |cx.s.nodes| && cx.s.nodes[n].kw in {Rpc, Action}
    requires f.key in {"input", "output"} && FindChild(cx.s, n, f.key) == Some(side)
    requires f.val.JObj? && f.val.fields != [] && EncObject(cx, side, f.val, false).Some?
    ensures var c := EncObject(cx, side, f.val, false).value;
      && cx.s.nodes[n].sid.Some? && c.Map? && c.entries != [] && c.entries[0].key.Integer?
      && SideOf(cx.s, n, AsI64(AsI64(c.entries[0].key.i) + cx.s.nodes[n].sid.value)) == Some((f.key, side))
  {
    hide Faithful, Indexed, RpcsOk, Forest, SideOf;
    var d, sid := FirstField(cx, At(side), f.val.fields);
    SideBase(cx, live, n, f.key, side);
    AsI64Difference(sid, cx.s.nodes[n].sid.value);
    SidTellsSide(cx, live, n, f.key, side, d, sid);
  }

  /** A side's delta base is the rpc's or action's own SID. */
  lemma {:induction false} SideBase(cx: Context, live: set<nat>, n: nat, name: string, side: nat)
    requires Ready(cx, live) && n in live && n < |cx.s.nodes| && cx.s.nodes[n].kw in {Rpc, Action}
    requires name in {"input", "output"}
    requires FindChild(cx.s, n, name) == Some(side)
    ensures cx.s.nodes[n].sid.Some? && DeltaBase(cx.s, side) == cx.s.nodes[n].sid.value
  {
    ChildLink(cx.s.nodes, n, side);
  }

  lemma {:induction false} SidTellsSide(cx: Context, live: set<nat>, n: nat, name: string, side: nat, d: nat, sid: i64)
    requires Ready(cx, live) && n in live && n < |cx.s.nodes| && cx.s.nodes[n].kw in {Rpc, Action}
    requires name in {"input", "output"} && FindChild(cx.s, n, name) == Some(side)
    requires d in DataChildren(cx.s.nodes, side) && d < |cx.s.nodes| && cx.s.nodes[d].sid == Some(sid)
    ensures SideOf(cx.s, n, sid) == Some((name, side))
  {
    assert SideHas(cx.s, side, sid);
    if name == "output" {
      var input := FindChild(cx.s, n, "input");
      if input.Some? { OtherSideLacks(cx, live, n, input.value, side, d, sid); }
    }
  }

  /** The first entry of an encoded body is for a child of the scope. */
  lemma {:induction false} FirstField(cx: Context, scope: Scope, fields: seq<Field>) returns (d: nat, sid: i64)
    requires Sound(cx.s) && ScopeOk(cx.s, scope) && fields != [] && EncBody(cx, scope, fields, false).Some?
    ensures FindIn(cx.s, scope, fields[0].key) == Some(d) && d < |cx.s.nodes| && cx.s.nodes[d].sid == Some(sid)
    ensures var c := EncBody(cx, scope, fields, false).value;
      c.Map? && c.entries != [] && c.entries[0].key == C.Integer(AsI64(sid - BaseOf(cx.s, scope)))
  {
    hide Forest;
    assert EncFields(cx, scope, fields, false).Some?;
    var found := FindSid(cx.s, scope, fields[0].key).value;
    d, sid := found.0, found.1;
  }

  lemma {:induction false} OtherSideLacks(cx: Context, live: set<nat>, n: nat, other: nat, side: nat, d: nat, sid: i64)
    requires Ready(cx, live) && n in live && n < |cx.s.nodes| && cx.s.nodes[n].kw in {Rpc, Action}
    requires FindChild(cx.s, n, "input") == Some(other) && FindChild(cx.s, n, "output") == Some(side)
    requires d in DataChildren(cx.s.nodes, side) && d < |cx.s.nodes| && cx.s.nodes[d].sid == Some(sid)
    ensures !SideHas(cx.s, other, sid)
  {
    assert cx.s.nodes[other].name == "input" && cx.s.nodes[side].name == "output";
    assert other != side;
    SidesLive(cx.s, live, n, side, d);
    DataChildBelongs(cx.s.nodes, side, d);
    forall e | e in DataChildren(cx.s.nodes, other) && e < |cx.s.nodes| ensures cx.s.nodes[e].sid != Some(sid) {
      SidesLive(cx.s, live, n, other, e);
      DataChildBelongs(cx.s.nodes, other, e);
    }
  }

  lemma {:induction false} SidesLive(s: Schema, live: set<nat>, n: nat, side: nat, d: nat)
    requires Sound(s) && Indexed(s, live) && n in live && n < |s.nodes| && side in s.nodes[n].children
    requires side < |s.nodes| && d in DataChildren(s.nodes, side)
    ensures d in live
  {
    var k :| 0 <= k < |s.nodes[n].children| && s.nodes[n].children[k] == side;
    SplicedLive(s, live, s.nodes[side].children, side + 1);
  }

  // ---------------------------------------------------------------- whole trees as bytes

  /** Leaf values are written as CBOR values that CBOR can carry. */
  ghost predicate Bounded(leaf: LeafCodec) {
    forall ty, v {:trigger leaf.enc(ty, v)} :: leaf.enc(ty, v).Some? ==> C.InRange(leaf.enc(ty, v).value)
  }

  lemma {:induction false} NodeInRange(cx: Context, n: nat, v: Json)
    requires Sound(cx.s) && n < |cx.s.nodes| && Bounded(cx.leaf) && EncNode(cx, n, v, false).Some?
    ensures C.InRange(EncNode(cx, n, v, false).value)
    decreases v, 4
  {
    match cx.s.nodes[n].kw
    case LeafList => LeavesInRange(cx, n, v.items);
    case Container | Input | Output => BodyInRange(cx, At(n), v.fields);
    case List => if v.JArr? { ItemsInRange(cx, n, v.items); } else { BodyInRange(cx, At(n), v.fields); }
    case Rpc | Action =>
      if |v.fields| == 1 && v.fields[0].key in {"input", "output"} {
        SideInRange(cx, n, v.fields[0]);
      } else {
        var side := FindChild(cx.s, n, "input");
        BodyInRange(cx, At(if side.Some? then side.value else n), v.fields);
      }
    case _ =>
  }

  lemma {:induction false} LeavesInRange(cx: Context, n: nat, items: seq<Json>)
    requires n < |cx.s.nodes| && Bounded(cx.leaf) && EncLeaves(cx, n, items, false).Some?
    ensures C.AllInRange(EncLeaves(cx, n, items, false).value)
    decreases |items|
  {
    if items != [] {
      LeavesInRange(cx, n, items[1..]);
      var x, rest := EncLeaf(cx, n, items[0], false).value, EncLeaves(cx, n, items[1..], false).value;
      assert ([x] + rest)[1..] == rest;
    }
  }

  lemma {:induction false} SideInRange(cx: Context, n: nat, f: Field)
    requires Sound(cx.s) && n < |cx.s.nodes| && Bounded(cx.leaf) && EncSide(cx, n, f, false).Some?
    ensures C.InRange(EncSide(cx, n, f, false).value)
    decreases f, 3
  {
    ObjectInRange(cx, FindChild(cx.s, n, f.key).value, f.val);
  }

  lemma {:induction false} ObjectInRange(cx: Context, n: nat, v: Json)
    requires Sound(cx.s) && n < |cx.s.nodes| && Bounded(cx.leaf) && EncObject(cx, n, v, false).Some?
    ensures C.InRange(EncObject(cx, n, v, false).value)
    decreases v, 3
  {
    BodyInRange(cx, At(n), v.fields);
  }

  lemma {:induction false} ItemsInRange(cx: Context, n: nat, items: seq<Json>)
    requires Sound(cx.s) && n < |cx.s.nodes| && Bounded(cx.leaf) && EncEntries(cx, n, items, false).Some?
    ensures C.AllInRange(EncEntries(cx, n, items, false).value)
    decreases items, 1
  {
    if items != [] {
      ObjectInRange(cx, n, items[0]);
      ItemsInRange(cx, n, items[1..]);
      var x, rest := EncObject(cx, n, items[0], false).value, EncEntries(cx, n, items[1..], false).value;
      assert ([x] + rest)[1..] == rest;
    }
  }

  lemma {:induction false} BodyInRange(cx: Context, scope: Scope, fields: seq<Field>)
    requires Sound(cx.s) && ScopeOk(cx.s, scope) && Bounded(cx.leaf) && EncBody(cx, scope, fields, false).Some?
    ensures C.InRange(EncBody(cx, scope, fields, false).value)
    decreases fields, 2
  {
    FieldsInRange(cx, scope, fields);
  }

  lemma {:induction false} FieldsInRange(cx: Context, scope: Scope, fields: seq<Field>)
    requires Sound(cx.s) && ScopeOk(cx.s, scope) && Bounded(cx.leaf) && EncFields(cx, scope, fields, false).Some?
    ensures C.EntriesInRange(EncFields(cx, scope, fields, false).value)
    decreases fields, 1
  {
    if fields != [] {
      var f, rest := fields[0], EncFields(cx, scope, fields[1..], false).value;
      FieldInRange(cx, FindSid(cx.s, scope, f.key).value.0, f);
      FieldsInRange(cx, scope, fields[1..]);
      var e := EncEntry(cx, scope, f);
      assert ([e] + rest)[1..] == rest;
    }
  }

  lemma {:induction false} FieldInRange(cx: Context, c: nat, f: Field)
    requires Sound(cx.s) && c < |cx.s.nodes| && Bounded(cx.leaf) && EncField(cx, c, f, false).Some?
    ensures C.InRange(EncField(cx, c, f, false).value)
    decreases f, 5
  {
    NodeInRange(cx, c, f.val);
  }

  /** The CBOR value of a whole tree; anything but an object is an error, replaced under the continue flag. */
  function TreeValue(cx: Context, v: Json, cont: bool): Option<C.Value>
    requires Sound(cx.s)
  {
    Lenient(if v.JObj? then EncBody(cx, Tree, v.fields, cont) else None, cont, C.Map([]))
  }

  /** The continue flag never refuses a tree, and changes nothing about one that is accepted without it. */
  lemma {:induction false} TreeContinues(cx: Context, v: Json)
    requires Sound(cx.s)
    ensures TreeValue(cx, v, true).Some?
    ensures TreeValue(cx, v, false).Some? ==> TreeValue(cx, v, true) == TreeValue(cx, v, false)
  {
    if TreeValue(cx, v, false).Some? { BodyAgrees(cx, Tree, v.fields); }
  }

  /** A whole tree from its bytes: nothing at all is an empty tree, and only the first item counts. */
  function CborToJson(cx: Context, bytes: seq<byte>): Option<Json>
    requires Sound(cx.s)
  {
    if bytes == [] then Some(JObj([]))
    else
      match R.Values(bytes)
      case None => None
      case Some(items) => if items == [] then None else DecBody(cx, Tree, items[0])
  }

  lemma {:induction false} OneItem(c: C.Value)
    requires C.Fits(c) && C.InRange(c)
    ensures C.Encode(c) != [] && R.Values(C.Encode(c)) == Some([c])
  {
    assert C.Meaning(C.Canon(c)) == c;
    OneTree(C.Canon(c), C.Encode(c));
  }

  lemma {:induction false} OneTree(it: C.Item, bytes: seq<byte>)
    requires C.Ok(it) && bytes == C.Render(it)
    ensures bytes != [] && R.Values(bytes) == Some([C.Meaning(it)])
  {
    P.RenderCons(it, []);
    assert [it] + [] == [it] && C.Render(it) + [] == bytes && bytes[0..] == bytes;
    R.SequenceComplete(bytes, 0, [it]);
    assert [it][1..] == [] && [C.Meaning(it)] + [] == [C.Meaning(it)];
    assert C.Meanings([it]) == [C.Meaning(it)] + C.Meanings([it][1..]);
  }

  /** A canonical tree survives the way to bytes and back, key order included. */
  lemma {:induction false} TreeRoundTrip(cx: Context, live: set<nat>, v: Json)
    requires Ready(cx, live) && Bounded(cx.leaf) && v.JObj? && CanonBody(cx, Tree, v.fields)
    requires TreeValue(cx, v, false).Some? && C.Fits(TreeValue(cx, v, false).value)
    ensures CborToJson(cx, C.Encode(TreeValue(cx, v, false).value)) == Some(v)
  {
    BodyRoundTrip(cx, live, Tree, v.fields);
    BodyInRange(cx, Tree, v.fields);
    var c := TreeValue(cx, v, false).value;
    OneItem(c);
    FirstItem(cx, C.Encode(c), c);
  }

  lemma {:induction false} FirstItem(cx: Context, bytes: seq<byte>, c: C.Value)
    requires Sound(cx.s) && bytes != [] && R.Values(bytes) == Some([c])
    ensures CborToJson(cx, bytes) == DecBody(cx, Tree, c)
  {
    assert [c][0] == c;
  }
}
