// The SID-CBOR codec for node bodies (RFC 9254 sections 4.2 and 4.4): containers, lists, leaf-lists, rpcs and actions,
// keyed by delta-SID, for any encoding of leaf values.

module YangBody {
  import opened Bytes
  import opened YangSchema
  import opened YangJson
  import C = Cbor
  import YangIdentity

  datatype Format = Yang | Get | Put | Fetch | Ipatch | Post

  predicate IsSequence(f: Format) {
    f == Fetch || f == Ipatch || f == Post
  }

  datatype Schema = Schema(
    nodes: seq<Node>, roots: seq<nat>, index: map<int, nat>, identities: seq<YangIdentity.Identity>)

  /** How leaf values are written and read; `canon` marks the spellings that reading gives back. */
  datatype LeafCodec = LeafCodec(
    enc: (Type, Json) -> Option<C.Value>, dec: (Type, C.Value) -> Option<Json>, canon: (Type, Json) -> bool)

  datatype Context = Context(s: Schema, leaf: LeafCodec, cf: Format)

  predicate Sound(s: Schema) {
    && Forest(s.nodes) && AtLeast(s.nodes, s.roots, 0)
    && (forall k :: k in s.index ==> s.index[k] < |s.nodes|)
    && (forall n, i :: 0 <= n < |s.nodes| && 0 <= i < |s.nodes[n].keys| ==> s.nodes[n].keys[i] < |s.nodes|)
  }

  // ---------------------------------------------------------------- looking up nodes

  /** The first of `ids` with this name. */
  function FirstNamed(nodes: seq<Node>, ids: seq<nat>, name: string): (r: Option<nat>)
    requires forall i :: 0 <= i < |ids| ==> ids[i] < |nodes|
    ensures r.Some? ==> r.value in ids && r.value < |nodes| && nodes[r.value].name == name
  {
    if ids == [] then None else if nodes[ids[0]].name == name then Some(ids[0]) else FirstNamed(nodes, ids[1..], name)
  }

  lemma {:induction false} SplicedValid(nodes: seq<Node>, ids: seq<nat>, low: nat)
    requires Forest(nodes) && AtLeast(nodes, ids, low)
    ensures forall i :: 0 <= i < |Spliced(nodes, ids, low)| ==> low <= Spliced(nodes, ids, low)[i] < |nodes|
    decreases |nodes| - low, |ids|
  {
    if ids != [] {
      SplicedValid(nodes, ids[1..], low);
      if Transparent(nodes[ids[0]].kw) { SplicedValid(nodes, nodes[ids[0]].children, ids[0] + 1); }
    }
  }

  function FindData(s: Schema, n: nat, name: string): (r: Option<nat>)
    requires Sound(s) && n < |s.nodes|
    ensures r.Some? ==> r.value in DataChildren(s.nodes, n) && r.value < |s.nodes| && s.nodes[r.value].name == name
  {
    SplicedValid(s.nodes, s.nodes[n].children, n + 1);
    FirstNamed(s.nodes, DataChildren(s.nodes, n), name)
  }

  function FindRoot(s: Schema, name: string): (r: Option<nat>)
    requires Sound(s)
    ensures r.Some? ==> r.value in Spliced(s.nodes, s.roots, 0) && r.value < |s.nodes| && s.nodes[r.value].name == name
  {
    SplicedValid(s.nodes, s.roots, 0);
    FirstNamed(s.nodes, Spliced(s.nodes, s.roots, 0), name)
  }

  function FindChild(s: Schema, n: nat, name: string): (r: Option<nat>)
    requires Sound(s) && n < |s.nodes|
    ensures r.Some? ==> r.value in s.nodes[n].children && r.value < |s.nodes| && s.nodes[r.value].name == name
  {
    FirstNamed(s.nodes, s.nodes[n].children, name)
  }

  /** The scope of a body: a node, or the whole tree. */
  datatype Scope = Tree | At(n: nat)

  predicate ScopeOk(s: Schema, scope: Scope) {
    scope.At? ==> scope.n < |s.nodes|
  }

  function FindIn(s: Schema, scope: Scope, name: string): (r: Option<nat>)
    requires Sound(s) && ScopeOk(s, scope)
    ensures r.Some? ==> r.value < |s.nodes| && s.nodes[r.value].name == name
  {
    match scope case Tree => FindRoot(s, name) case At(n) => FindData(s, n, name)
  }

  /** SIDs of an rpc's or action's input and output are written relative to the rpc or action itself. */
  function DeltaBase(s: Schema, n: nat): i64
    requires Sound(s) && n < |s.nodes|
  {
    var own := if s.nodes[n].sid.Some? then s.nodes[n].sid.value else 0;
    match s.nodes[n].parent
    case None => own
    case Some(p) =>
      if s.nodes[n].kw in {Input, Output} && s.nodes[p].kw in {Rpc, Action} && s.nodes[p].sid.Some?
      then s.nodes[p].sid.value else own
  }

  function BaseOf(s: Schema, scope: Scope): i64
    requires Sound(s) && ScopeOk(s, scope)
  {
    match scope case Tree => 0 case At(n) => DeltaBase(s, n)
  }

  predicate IsKeyOf(s: Schema, n: nat, c: nat)
    requires Sound(s) && n < |s.nodes| && c < |s.nodes|
  {
    exists i :: 0 <= i < |s.nodes[n].keys| && LocalName(s.nodes[s.nodes[n].keys[i]].name) == LocalName(s.nodes[c].name)
  }

  /** A data child that a body has to hold: a mandatory one or a list key, but no state data in a put or ipatch. */
  predicate Required(cx: Context, n: nat, c: nat)
    requires Sound(cx.s) && n < |cx.s.nodes| && c < |cx.s.nodes|
  {
    && !(cx.cf in {Ipatch, Put} && cx.s.nodes[c].config == Some(false))
    && (cx.s.nodes[c].mandatory || IsKeyOf(cx.s, n, c))
  }

  predicate MissingChild(cx: Context, n: nat, fields: seq<Field>, c: nat)
    requires Sound(cx.s) && n < |cx.s.nodes|
  {
    c < |cx.s.nodes| && Required(cx, n, c) && !HasKey(fields, cx.s.nodes[c].name)
  }

  predicate Missing(cx: Context, scope: Scope, fields: seq<Field>)
    requires Sound(cx.s) && ScopeOk(cx.s, scope)
  {
    scope.At? && exists c :: c in DataChildren(cx.s.nodes, scope.n) && MissingChild(cx, scope.n, fields, c)
  }

  // ---------------------------------------------------------------- encoding

  /** With the continue flag a failure is replaced. */
  function Lenient<T>(r: Option<T>, cont: bool, fallback: T): Option<T> {
    if r.None? && cont then Some(fallback) else r
  }

  function AsArray(r: Option<seq<C.Value>>): Option<C.Value> {
    match r case None => None case Some(items) => Some(C.Array(items))
  }

  function EncLeaf(cx: Context, n: nat, v: Json, cont: bool): Option<C.Value>
    requires n < |cx.s.nodes|
  {
    match cx.s.nodes[n].ty
    case None => None
    case Some(ty) => Lenient(cx.leaf.enc(ty, v), cont, Generic(v))
  }

  function EncLeaves(cx: Context, n: nat, items: seq<Json>, cont: bool): Option<seq<C.Value>>
    requires n < |cx.s.nodes|
  {
    if items == [] then Some([])
    else
      match EncLeaf(cx, n, items[0], cont)
      case None => None
      case Some(x) => Cons(x, EncLeaves(cx, n, items[1..], cont))
  }

  function Cons<T>(x: T, r: Option<seq<T>>): Option<seq<T>> {
    match r case None => None case Some(xs) => Some([x] + xs)
  }

  /** Encode a value for a node of any kind. */
  function EncNode(cx: Context, n: nat, v: Json, cont: bool): Option<C.Value>
    requires Sound(cx.s) && n < |cx.s.nodes|
    decreases v, 4
  {
    match cx.s.nodes[n].kw
    case Leaf => EncLeaf(cx, n, v, cont)
    case LeafList => if v.JArr? then AsArray(EncLeaves(cx, n, v.items, cont)) else None
    case Container | Input | Output =>
      Lenient(if v.JObj? then EncBody(cx, At(n), v.fields, cont) else None, cont, C.Map([]))
    case List =>
      Lenient(
        if v.JArr? then AsArray(EncEntries(cx, n, v.items, cont))
        else if v.JObj? && IsSequence(cx.cf) then EncBody(cx, At(n), v.fields, cont)
        else None,
        cont, C.Array([]))
    case Rpc | Action =>
      if !v.JObj? then None
      else if |v.fields| == 1 && v.fields[0].key in {"input", "output"} then EncSide(cx, n, v.fields[0], cont)
      else
        var side := FindChild(cx.s, n, "input");
        EncBody(cx, At(if side.Some? then side.value else n), v.fields, cont)
    case _ => None
  }

  /** The side of an rpc or action that a wrapper key names. */
  function EncSide(cx: Context, n: nat, f: Field, cont: bool): Option<C.Value>
    requires Sound(cx.s) && n < |cx.s.nodes|
    decreases f, 3
  {
    match FindChild(cx.s, n, f.key)
    case None => None
    case Some(side) => EncObject(cx, side, f.val, cont)
  }

  /** One body, for a side of an rpc or action or for an entry of a list: anything but an object is an error. */
  function EncObject(cx: Context, side: nat, v: Json, cont: bool): Option<C.Value>
    requires Sound(cx.s) && side < |cx.s.nodes|
    decreases v, 3
  {
    if v.JObj? then EncBody(cx, At(side), v.fields, cont) else None
  }

  /** The entries of a list. */
  function EncEntries(cx: Context, n: nat, items: seq<Json>, cont: bool): Option<seq<C.Value>>
    requires Sound(cx.s) && n < |cx.s.nodes|
    decreases items, 1
  {
    if items == [] then Some([])
    else
      match EncObject(cx, n, items[0], cont)
      case None => None
      case Some(x) => Cons(x, EncEntries(cx, n, items[1..], cont))
  }

  /** The fields of one body, in their own order; a missing required child is an error. */
  function EncBody(cx: Context, scope: Scope, fields: seq<Field>, cont: bool): Option<C.Value>
    requires Sound(cx.s) && ScopeOk(cx.s, scope)
    decreases fields, 2
  {
    match EncFields(cx, scope, fields, cont)
    case None => None
    case Some(es) => if !cont && Missing(cx, scope, fields) then None else Some(C.Map(es))
  }

  function EncFields(cx: Context, scope: Scope, fields: seq<Field>, cont: bool): Option<seq<C.Entry>>
    requires Sound(cx.s) && ScopeOk(cx.s, scope)
    decreases fields, 1
  {
    if fields == [] then Some([])
    else
      var rest := EncFields(cx, scope, fields[1..], cont);
      match FindSid(cx.s, scope, fields[0].key)
      case None => if cont then rest else None
      case Some((c, sid)) =>
        match EncField(cx, c, fields[0], cont)
        case None => None
        case Some(x) => Cons(C.Entry(C.Integer(AsI64(sid - BaseOf(cx.s, scope))), x), rest)
  }

  function EncField(cx: Context, c: nat, f: Field, cont: bool): Option<C.Value>
    requires Sound(cx.s) && c < |cx.s.nodes|
    decreases f, 5
  {
    EncNode(cx, c, f.val, cont)
  }

  /** The child a key names, and its SID. */
  function FindSid(s: Schema, scope: Scope, key: string): (r: Option<(nat, i64)>)
    requires Sound(s) && ScopeOk(s, scope)
    ensures r.Some? ==> r.value.0 < |s.nodes| && s.nodes[r.value.0].name == key && s.nodes[r.value.0].sid == Some(r.value.1)
    ensures r.Some? ==> FindIn(s, scope, key) == Some(r.value.0)
  {
    match FindIn(s, scope, key)
    case None => None
    case Some(c) => match s.nodes[c].sid case None => None case Some(sid) => Some((c, sid))
  }

  // ---------------------------------------------------------------- decoding

  function DecLeaf(cx: Context, n: nat, c: C.Value): Option<Json>
    requires n < |cx.s.nodes|
  {
    match cx.s.nodes[n].ty case None => None case Some(ty) => cx.leaf.dec(ty, c)
  }

  function DecLeaves(cx: Context, n: nat, items: seq<C.Value>): Option<seq<Json>>
    requires n < |cx.s.nodes|
  {
    if items == [] then Some([])
    else
      match DecLeaf(cx, n, items[0]) { case None => None case Some(x) => Cons(x, DecLeaves(cx, n, items[1..])) }
  }

  function AsList(r: Option<seq<Json>>): Option<Json> {
    match r case None => None case Some(items) => Some(JArr(items))
  }

  /** Decode a value for a node of any kind. */
  function DecNode(cx: Context, n: nat, c: C.Value): Option<Json>
    requires Sound(cx.s) && n < |cx.s.nodes|
    decreases c, 4
  {
    match cx.s.nodes[n].kw
    case Leaf => DecLeaf(cx, n, c)
    case LeafList => if c.Array? then AsList(DecLeaves(cx, n, c.items)) else None
    case Container | Input | Output => DecBody(cx, At(n), c)
    case List =>
      if c.Array? then AsList(DecItems(cx, n, c.items))
      else if c.Map? && IsSequence(cx.cf) then DecBody(cx, At(n), c)
      else None
    case Rpc | Action =>
      if !c.Map? then None
      else if c.entries == [] then Some(JObj([]))
      else if !c.entries[0].key.Integer? then None
      else
        var base := if cx.s.nodes[n].sid.Some? then cx.s.nodes[n].sid.value else 0;
        DecSide(cx, SideOf(cx.s, n, AsI64(AsI64(c.entries[0].key.i) + base)), c)
    case _ => None
  }

  /** A flat map decoded as one side and put under that side's name. */
  function DecSide(cx: Context, side: Option<(string, nat)>, c: C.Value): Option<Json>
    requires Sound(cx.s) && (side.Some? ==> side.value.1 < |cx.s.nodes|)
    decreases c, 3, 1
  {
    match side
    case None => None
    case Some((name, n)) =>
      match DecBody(cx, At(n), c) { case None => None case Some(v) => Some(JObj([Field(name, v)])) }
  }

  /** A data child of `side` carries this SID. */
  predicate SideHas(s: Schema, side: nat, sid: i64)
    requires Sound(s) && side < |s.nodes|
  {
    exists d :: d in DataChildren(s.nodes, side) && d < |s.nodes| && s.nodes[d].sid == Some(sid)
  }

  /** The side whose own data children include the SID; input is tried first. */
  function SideOf(s: Schema, n: nat, sid: i64): (r: Option<(string, nat)>)
    requires Sound(s) && n < |s.nodes|
    ensures r.Some? ==> r.value.1 < |s.nodes|
  {
    var input, output := FindChild(s, n, "input"), FindChild(s, n, "output");
    if input.Some? && SideHas(s, input.value, sid) then Some(("input", input.value))
    else if output.Some? && SideHas(s, output.value, sid) then Some(("output", output.value))
    else None
  }

  function DecItems(cx: Context, n: nat, items: seq<C.Value>): Option<seq<Json>>
    requires Sound(cx.s) && n < |cx.s.nodes|
    decreases items, 1
  {
    if items == [] then Some([])
    else
      match DecBody(cx, At(n), items[0]) { case None => None case Some(x) => Cons(x, DecItems(cx, n, items[1..])) }
  }

  /** A map keyed by delta-SID; each SID is looked up in the whole schema. */
  function DecBody(cx: Context, scope: Scope, c: C.Value): Option<Json>
    requires Sound(cx.s) && ScopeOk(cx.s, scope)
    decreases c, 3, 0
  {
    if !c.Map? then None
    else
      match DecEntries(cx, BaseOf(cx.s, scope), c.entries, [])
      case None => None
      case Some(fields) => Some(JObj(fields))
  }

  function DecEntries(cx: Context, base: i64, entries: seq<C.Entry>, done: seq<Field>): Option<seq<Field>>
    requires Sound(cx.s)
    decreases entries, 2
  {
    if entries == [] then Some(done)
    else
      match DecEntry(cx, base, entries[0])
      case None => None
      case Some(f) => DecEntries(cx, base, entries[1..], Insert(done, f))
  }

  function DecEntry(cx: Context, base: i64, e: C.Entry): Option<Field>
    requires Sound(cx.s)
    decreases e, 5
  {
    if !e.key.Integer? then None
    else
      var sid := AsI64(AsI64(e.key.i) + base);
      if sid !in cx.s.index then None
      else
        var child := cx.s.index[sid];
        match DecNode(cx, child, e.val) { case None => None case Some(v) => Some(Field(cx.s.nodes[child].name, v)) }
  }

  // ---------------------------------------------------------------- the continue flag is conservative

  /**
   * Whatever strict encoding accepts, encoding with the continue flag writes identically, for every schema, value and
   * leaf encoding.
   */
  lemma {:induction false} ContinueAgrees(cx: Context, n: nat, v: Json)
    requires Sound(cx.s) && n < |cx.s.nodes| && EncNode(cx, n, v, false).Some?
    ensures EncNode(cx, n, v, true) == EncNode(cx, n, v, false)
    decreases v, 4
  {
    match cx.s.nodes[n].kw
    case LeafList => LeavesAgree(cx, n, v.items);
    case Container | Input | Output => BodyAgrees(cx, At(n), v.fields);
    case List => if v.JArr? { EntriesAgree(cx, n, v.items); } else { BodyAgrees(cx, At(n), v.fields); }
    case Rpc | Action =>
      if |v.fields| == 1 && v.fields[0].key in {"input", "output"} {
        SideAgrees(cx, n, v.fields[0]);
      } else {
        var side := FindChild(cx.s, n, "input");
        BodyAgrees(cx, At(if side.Some? then side.value else n), v.fields);
      }
    case _ =>
  }

  lemma {:induction false} LeavesAgree(cx: Context, n: nat, items: seq<Json>)
    requires n < |cx.s.nodes| && EncLeaves(cx, n, items, false).Some?
    ensures EncLeaves(cx, n, items, true) == EncLeaves(cx, n, items, false)
    decreases |items|
  {
    if items != [] { LeavesAgree(cx, n, items[1..]); }
  }

  lemma {:induction false} SideAgrees(cx: Context, n: nat, f: Field)
    requires Sound(cx.s) && n < |cx.s.nodes| && EncSide(cx, n, f, false).Some?
    ensures EncSide(cx, n, f, true) == EncSide(cx, n, f, false)
    decreases f, 3
  {
    ObjectAgrees(cx, FindChild(cx.s, n, f.key).value, f.val);
  }

  lemma {:induction false} ObjectAgrees(cx: Context, side: nat, v: Json)
    requires Sound(cx.s) && side < |cx.s.nodes| && EncObject(cx, side, v, false).Some?
    ensures EncObject(cx, side, v, true) == EncObject(cx, side, v, false)
    decreases v, 3
  {
    BodyAgrees(cx, At(side), v.fields);
  }

  lemma {:induction false} EntriesAgree(cx: Context, n: nat, items: seq<Json>)
    requires Sound(cx.s) && n < |cx.s.nodes| && EncEntries(cx, n, items, false).Some?
    ensures EncEntries(cx, n, items, true) == EncEntries(cx, n, items, false)
    decreases items, 1
  {
    if items != [] {
      ObjectAgrees(cx, n, items[0]);
      EntriesAgree(cx, n, items[1..]);
    }
  }

  lemma {:induction false} BodyAgrees(cx: Context, scope: Scope, fields: seq<Field>)
    requires Sound(cx.s) && ScopeOk(cx.s, scope) && EncBody(cx, scope, fields, false).Some?
    ensures EncBody(cx, scope, fields, true) == EncBody(cx, scope, fields, false)
    decreases fields, 2
  {
    FieldsAgree(cx, scope, fields);
  }

  lemma {:induction false} FieldsAgree(cx: Context, scope: Scope, fields: seq<Field>)
    requires Sound(cx.s) && ScopeOk(cx.s, scope) && EncFields(cx, scope, fields, false).Some?
    ensures EncFields(cx, scope, fields, true) == EncFields(cx, scope, fields, false)
    decreases fields, 1
  {
    if fields != [] {
      var (c, sid) := FindSid(cx.s, scope, fields[0].key).value;
      FieldAgrees(cx, c, fields[0]);
      FieldsAgree(cx, scope, fields[1..]);
    }
  }

  lemma {:induction false} FieldAgrees(cx: Context, c: nat, f: Field)
    requires Sound(cx.s) && c < |cx.s.nodes| && EncField(cx, c, f, false).Some?
    ensures EncField(cx, c, f, true) == EncField(cx, c, f, false)
    decreases f, 5
  {
    ContinueAgrees(cx, c, f.val);
  }

  /** With the flag, containers and lists always encode, and so do leaves that have a type. */
  lemma {:induction false} ContinueSucceeds(cx: Context, n: nat, v: Json)
    requires Sound(cx.s) && n < |cx.s.nodes|
    requires cx.s.nodes[n].kw in {Container, Input, Output, List} || (cx.s.nodes[n].kw == Leaf && cx.s.nodes[n].ty.Some?)
    ensures EncNode(cx, n, v, true).Some?
  {
  }
}
