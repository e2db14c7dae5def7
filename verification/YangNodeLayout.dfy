// What a name means below a node, and how each kind of schema node stands in CBOR: which children are seen through choices
// and cases, that lists keep their order, and what an rpc's or action's value is.

module YangNodeLayout {
  import opened Bytes
  import opened YangSchema
  import opened YangJson
  import opened YangBody
  import C = Cbor

  // ---------------------------------------------------------------- what a name means

  /** `c` is a child of `n`, or of a choice or case that stands below `n` with only choices and cases between. */
  predicate Under(nodes: seq<Node>, n: nat, c: nat)
    requires Forest(nodes)
    decreases c
  {
    && c < |nodes| && nodes[c].parent.Some? && c in nodes[nodes[c].parent.value].children
    && var p := nodes[c].parent.value;
       p == n || (nodes[p].kw in {Choice, Case} && Under(nodes, n, p))
  }

  lemma ChildUnder(nodes: seq<Node>, n: nat, c: nat)
    requires Forest(nodes) && n < |nodes|
    ensures c in nodes[n].children ==> n < c < |nodes| && Under(nodes, n, c)
  {
    if c in nodes[n].children { ChildLink(nodes, n, c); }
  }

  /** What stands under a choice or case under `n` stands under `n`. */
  lemma {:induction false} UnderThrough(nodes: seq<Node>, n: nat, t: nat, c: nat)
    requires Forest(nodes) && Under(nodes, n, t) && nodes[t].kw in {Choice, Case} && Under(nodes, t, c)
    ensures Under(nodes, n, c)
    decreases c
  {
    var p := nodes[c].parent.value;
    if p != t { UnderThrough(nodes, n, t, p); }
  }

  /** Below a child, or the child itself. */
  predicate AtOrUnder(nodes: seq<Node>, t: nat, c: nat)
    requires Forest(nodes)
  {
    c == t || (t < |nodes| && nodes[t].kw in {Choice, Case} && Under(nodes, t, c))
  }

  lemma {:induction false} UnderSome(nodes: seq<Node>, n: nat, c: nat) returns (t: nat)
    requires Forest(nodes) && n < |nodes| && Under(nodes, n, c)
    ensures t in nodes[n].children && AtOrUnder(nodes, t, c)
    decreases c
  {
    var p := nodes[c].parent.value;
    if p == n { return c; }
    t := UnderSome(nodes, n, p);
    ChildLink(nodes, n, t);
  }

  predicate SomeHas(nodes: seq<Node>, ids: seq<nat>, c: nat)
    requires Forest(nodes)
  {
    exists i :: 0 <= i < |ids| && AtOrUnder(nodes, ids[i], c)
  }

  lemma SomeHasFirst(nodes: seq<Node>, ids: seq<nat>, c: nat)
    requires Forest(nodes) && ids != []
    ensures SomeHas(nodes, ids, c) <==> AtOrUnder(nodes, ids[0], c) || SomeHas(nodes, ids[1..], c)
  {
    hide AtOrUnder;
    assert forall i :: 0 < i < |ids| ==> ids[i] == ids[1..][i - 1];
    assert forall i :: 0 <= i < |ids[1..]| ==> ids[1..][i] == ids[i + 1];
  }

  lemma {:induction false} SplicedHas(nodes: seq<Node>, ids: seq<nat>, low: nat, c: nat)
    requires Forest(nodes) && AtLeast(nodes, ids, low)
    ensures c in Spliced(nodes, ids, low) <==> c < |nodes| && nodes[c].kw !in {Choice, Case} && SomeHas(nodes, ids, c)
    decreases |nodes| - low, |ids| + 1
  {
    hide Spliced, AtOrUnder, SomeHas, Under, Forest;
    if ids == [] {
      SplicedNone(nodes, ids, low, c);
    } else {
      SplicedSplit(nodes, ids, low, c);
      HeadHas(nodes, ids[0], c);
      SplicedHas(nodes, ids[1..], low, c);
      SomeHasFirst(nodes, ids, c);
    }
  }

  lemma SplicedNone(nodes: seq<Node>, ids: seq<nat>, low: nat, c: nat)
    requires Forest(nodes) && AtLeast(nodes, ids, low) && ids == []
    ensures c !in Spliced(nodes, ids, low) && !SomeHas(nodes, ids, c)
  {
  }

  lemma SplicedSplit(nodes: seq<Node>, ids: seq<nat>, low: nat, c: nat)
    requires Forest(nodes) && AtLeast(nodes, ids, low) && ids != []
    ensures AtLeast(nodes, ids[1..], low) && AtLeast(nodes, nodes[ids[0]].children, ids[0] + 1)
    ensures c in Spliced(nodes, ids, low) <==>
      || c in (if Transparent(nodes[ids[0]].kw) then Spliced(nodes, nodes[ids[0]].children, ids[0] + 1) else [ids[0]])
      || c in Spliced(nodes, ids[1..], low)
  {
    SplicedFirst(nodes, ids, low);
    hide Spliced, Forest;
    InConcat(if Transparent(nodes[ids[0]].kw) then Spliced(nodes, nodes[ids[0]].children, ids[0] + 1) else [ids[0]],
             Spliced(nodes, ids[1..], low), c);
  }

  lemma InConcat(a: seq<nat>, b: seq<nat>, c: nat)
    ensures c in a + b <==> c in a || c in b
  {
  }

  lemma {:induction false} HeadHas(nodes: seq<Node>, t: nat, c: nat)
    requires Forest(nodes) && t < |nodes| && AtLeast(nodes, nodes[t].children, t + 1)
    ensures c in (if Transparent(nodes[t].kw) then Spliced(nodes, nodes[t].children, t + 1) else [t]) <==>
      c < |nodes| && nodes[c].kw !in {Choice, Case} && AtOrUnder(nodes, t, c)
    decreases |nodes| - t, 1
  {
    if Transparent(nodes[t].kw) {
      SeenBelow(nodes, t, c);
    }
  }

  lemma {:induction false} SeenBelow(nodes: seq<Node>, n: nat, c: nat)
    requires Forest(nodes) && n < |nodes| && AtLeast(nodes, nodes[n].children, n + 1)
    ensures c in Spliced(nodes, nodes[n].children, n + 1) <==> c < |nodes| && nodes[c].kw !in {Choice, Case} && Under(nodes, n, c)
    decreases |nodes| - n, 0
  {
    SplicedHas(nodes, nodes[n].children, n + 1, c);
    var ids := nodes[n].children;
    if Under(nodes, n, c) {
      var t := UnderSome(nodes, n, c);
      var i :| 0 <= i < |ids| && ids[i] == t;
    }
    if i :| 0 <= i < |ids| && AtOrUnder(nodes, ids[i], c) {
      ChildUnder(nodes, n, ids[i]);
      if c != ids[i] { UnderThrough(nodes, n, ids[i], c); }
    }
  }

  /** The children of a body are exactly the nodes under it that are neither choice nor case. */
  lemma SeenExactly(nodes: seq<Node>, n: nat, c: nat)
    requires Forest(nodes) && n < |nodes|
    ensures c in DataChildren(nodes, n) <==> c < |nodes| && nodes[c].kw !in {Choice, Case} && Under(nodes, n, c)
  {
    SeenBelow(nodes, n, c);
  }

  /** The nodes a name is looked up among: the roots of the tree, or the children of a node, with choices and cases opened. */
  function Visible(s: Schema, scope: Scope): seq<nat>
    requires Sound(s) && ScopeOk(s, scope)
  {
    match scope case Tree => Spliced(s.nodes, s.roots, 0) case At(n) => DataChildren(s.nodes, n)
  }

  lemma {:induction false} FirstNamedIs(nodes: seq<Node>, ids: seq<nat>, name: string)
    requires forall i :: 0 <= i < |ids| ==> ids[i] < |nodes|
    ensures match FirstNamed(nodes, ids, name)
      case None => forall i :: 0 <= i < |ids| ==> nodes[ids[i]].name != name
      case Some(c) =>
        exists i :: 0 <= i < |ids| && ids[i] == c && nodes[c].name == name && forall j :: 0 <= j < i ==> nodes[ids[j]].name != name
    decreases |ids|
  {
    if ids != [] && nodes[ids[0]].name != name {
      FirstNamedIs(nodes, ids[1..], name);
      assert forall i :: 0 < i < |ids| ==> ids[i] == ids[1..][i - 1];
      match FirstNamed(nodes, ids[1..], name)
      case None =>
      case Some(c) =>
        var i :| 0 <= i < |ids[1..]| && ids[1..][i] == c && forall j :: 0 <= j < i ==> nodes[ids[1..][j]].name != name;
        assert ids[i + 1] == c && forall j :: 0 <= j < i + 1 ==> nodes[ids[j]].name != name;
    }
  }

  /** A name means the first of them that is called so, and nothing only if there is none. */
  lemma NameMeans(s: Schema, scope: Scope, name: string)
    requires Sound(s) && ScopeOk(s, scope)
    ensures forall i :: 0 <= i < |Visible(s, scope)| ==> Visible(s, scope)[i] < |s.nodes|
    ensures match FindIn(s, scope, name)
      case None => forall i :: 0 <= i < |Visible(s, scope)| ==> s.nodes[Visible(s, scope)[i]].name != name
      case Some(c) =>
        exists i :: 0 <= i < |Visible(s, scope)| && Visible(s, scope)[i] == c && s.nodes[c].name == name
          && forall j :: 0 <= j < i ==> s.nodes[Visible(s, scope)[j]].name != name
  {
    hide Spliced;
    match scope
    case Tree =>
      SplicedValid(s.nodes, s.roots, 0);
      FirstNamedIs(s.nodes, Visible(s, scope), name);
    case At(n) =>
      SplicedValid(s.nodes, s.nodes[n].children, n + 1);
      FirstNamedIs(s.nodes, Visible(s, scope), name);
  }

  // ---------------------------------------------------------------- what a node's value is written as

  /** A value for a leaf, as its type encodes it. */
  function OneLeaf(cx: Context, n: nat, v: Json): Option<C.Value>
    requires n < |cx.s.nodes|
  {
    match cx.s.nodes[n].ty case None => None case Some(ty) => cx.leaf.enc(ty, v)
  }

  /** An entry of a list: an object, as a body of the list's own scope. */
  function OneEntry(cx: Context, n: nat, v: Json): Option<C.Value>
    requires Sound(cx.s) && n < |cx.s.nodes|
  {
    if v.JObj? then EncBody(cx, At(n), v.fields, false) else None
  }

  predicate LeavesInOrder(cx: Context, n: nat, items: seq<Json>, out: seq<C.Value>)
    requires n < |cx.s.nodes|
  {
    |out| == |items| && forall i :: 0 <= i < |items| ==> OneLeaf(cx, n, items[i]) == Some(out[i])
  }

  predicate EntriesInOrder(cx: Context, n: nat, items: seq<Json>, out: seq<C.Value>)
    requires Sound(cx.s) && n < |cx.s.nodes|
  {
    |out| == |items| && forall i :: 0 <= i < |items| ==> OneEntry(cx, n, items[i]) == Some(out[i])
  }

  lemma {:induction false} LeavesWritten(cx: Context, n: nat, items: seq<Json>)
    requires n < |cx.s.nodes|
    ensures EncLeaves(cx, n, items, false).Some? <==> forall i :: 0 <= i < |items| ==> OneLeaf(cx, n, items[i]).Some?
    ensures EncLeaves(cx, n, items, false).Some? ==> LeavesInOrder(cx, n, items, EncLeaves(cx, n, items, false).value)
    decreases |items|
  {
    if items != [] {
      LeavesWritten(cx, n, items[1..]);
      assert forall i :: 0 < i < |items| ==> items[i] == items[1..][i - 1];
      assert forall i :: 0 <= i < |items[1..]| ==> items[1..][i] == items[i + 1];
    }
  }

  lemma {:induction false} EntriesWritten(cx: Context, n: nat, items: seq<Json>)
    requires Sound(cx.s) && n < |cx.s.nodes|
    ensures EncEntries(cx, n, items, false).Some? <==> forall i :: 0 <= i < |items| ==> OneEntry(cx, n, items[i]).Some?
    ensures EncEntries(cx, n, items, false).Some? ==> EntriesInOrder(cx, n, items, EncEntries(cx, n, items, false).value)
    decreases |items|
  {
    if items != [] {
      EntriesWritten(cx, n, items[1..]);
      EntryFirst(cx, n, items);
      hide EncEntries, OneEntry;
      assert forall i :: 0 < i < |items| ==> items[i] == items[1..][i - 1];
      assert forall i :: 0 <= i < |items[1..]| ==> items[1..][i] == items[i + 1];
    }
  }

  lemma EntryFirst(cx: Context, n: nat, items: seq<Json>)
    requires Sound(cx.s) && n < |cx.s.nodes| && items != []
    ensures EncEntries(cx, n, items, false) ==
      match OneEntry(cx, n, items[0]) case None => None case Some(x) => Cons(x, EncEntries(cx, n, items[1..], false))
  {
    hide EncBody;
  }

  /**
   * Strictly encoded, a leaf is its type's value; leaf-lists and lists are arrays of what each element is, in order; a list
   * may also be a single entry in a fetch, ipatch or post; containers, inputs and outputs are bodies.
   */
  lemma NodeWritten(cx: Context, n: nat, v: Json)
    requires Sound(cx.s) && n < |cx.s.nodes|
    ensures var r := EncNode(cx, n, v, false);
      match cx.s.nodes[n].kw
      case Leaf => r == OneLeaf(cx, n, v)
      case LeafList =>
        && (r.Some? <==> v.JArr? && forall i :: 0 <= i < |v.items| ==> OneLeaf(cx, n, v.items[i]).Some?)
        && (r.Some? ==> r.value.Array? && LeavesInOrder(cx, n, v.items, r.value.items))
      case Container | Input | Output => r == if v.JObj? then EncBody(cx, At(n), v.fields, false) else None
      case List =>
        if v.JArr? then
          && (r.Some? <==> forall i :: 0 <= i < |v.items| ==> OneEntry(cx, n, v.items[i]).Some?)
          && (r.Some? ==> r.value.Array? && EntriesInOrder(cx, n, v.items, r.value.items))
        else if v.JObj? && (cx.cf == Fetch || cx.cf == Ipatch || cx.cf == Post) then r == EncBody(cx, At(n), v.fields, false)
        else r == None
      case Rpc | Action => !v.JObj? ==> r == None
      case _ => r == None
  {
    hide EncBody, EncLeaves, EncEntries, OneLeaf, OneEntry;
    match cx.s.nodes[n].kw
    case Leaf => LeafWritten(cx, n, v);
    case LeafList => if v.JArr? { LeavesWritten(cx, n, v.items); }
    case List => if v.JArr? { EntriesWritten(cx, n, v.items); }
    case _ =>
  }

  lemma LeafWritten(cx: Context, n: nat, v: Json)
    requires n < |cx.s.nodes|
    ensures EncLeaf(cx, n, v, false) == OneLeaf(cx, n, v)
  {
  }

  lemma SideWritten(cx: Context, n: nat, f: Field)
    requires Sound(cx.s) && n < |cx.s.nodes|
    ensures EncSide(cx, n, f, false) ==
      match FindChild(cx.s, n, f.key)
      case None => None
      case Some(side) => if f.val.JObj? then EncBody(cx, At(side), f.val.fields, false) else None
  {
    hide EncBody, FindChild;
  }

  /** An rpc or action takes one side under its name, and is that side's body; any other object is the body of its input. */
  lemma RpcWritten(cx: Context, n: nat, fields: seq<Field>)
    requires Sound(cx.s) && n < |cx.s.nodes| && cx.s.nodes[n].kw in {Rpc, Action}
    ensures var r := EncNode(cx, n, JObj(fields), false);
      if |fields| == 1 && (fields[0].key == "input" || fields[0].key == "output") then
        match FindChild(cx.s, n, fields[0].key)
        case None => r == None
        case Some(side) => r == if fields[0].val.JObj? then EncBody(cx, At(side), fields[0].val.fields, false) else None
      else
        match FindChild(cx.s, n, "input")
        case None => r == EncBody(cx, At(n), fields, false)
        case Some(side) => r == EncBody(cx, At(side), fields, false)
  {
    hide EncBody, FindChild;
    if |fields| == 1 && (fields[0].key == "input" || fields[0].key == "output") {
      assert EncNode(cx, n, JObj(fields), false) == EncSide(cx, n, fields[0], false);
      SideWritten(cx, n, fields[0]);
    }
  }

  /** With the continue flag a refused leaf is written without its type, and a refused body or list as an empty one. */
  lemma NodeContinued(cx: Context, n: nat, v: Json)
    requires Sound(cx.s) && n < |cx.s.nodes|
    ensures var r := EncNode(cx, n, v, true);
      match cx.s.nodes[n].kw
      case Leaf => r == (if cx.s.nodes[n].ty.Some? && OneLeaf(cx, n, v) == None then Some(Generic(v)) else OneLeaf(cx, n, v))
      case Container | Input | Output =>
        r == if v.JObj? && EncBody(cx, At(n), v.fields, true).Some? then EncBody(cx, At(n), v.fields, true) else Some(C.Map([]))
      case List =>
        (v.JNull? || v.JBool? || v.JNum? || v.JFraction? || v.JStr? || (v.JObj? && cx.cf !in {Fetch, Ipatch, Post})) ==>
          r == Some(C.Array([]))
      case _ => true
  {
    hide EncBody, EncEntries;
  }

  // ---------------------------------------------------------------- what a node's value is read as

  function OneLeafRead(cx: Context, n: nat, c: C.Value): Option<Json>
    requires n < |cx.s.nodes|
  {
    match cx.s.nodes[n].ty case None => None case Some(ty) => cx.leaf.dec(ty, c)
  }

  predicate LeavesReadInOrder(cx: Context, n: nat, items: seq<C.Value>, out: seq<Json>)
    requires n < |cx.s.nodes|
  {
    |out| == |items| && forall i :: 0 <= i < |items| ==> OneLeafRead(cx, n, items[i]) == Some(out[i])
  }

  predicate BodiesReadInOrder(cx: Context, n: nat, items: seq<C.Value>, out: seq<Json>)
    requires Sound(cx.s) && n < |cx.s.nodes|
  {
    |out| == |items| && forall i :: 0 <= i < |items| ==> DecBody(cx, At(n), items[i]) == Some(out[i])
  }

  lemma {:induction false} LeavesRead(cx: Context, n: nat, items: seq<C.Value>)
    requires n < |cx.s.nodes|
    ensures DecLeaves(cx, n, items).Some? <==> forall i :: 0 <= i < |items| ==> OneLeafRead(cx, n, items[i]).Some?
    ensures DecLeaves(cx, n, items).Some? ==> LeavesReadInOrder(cx, n, items, DecLeaves(cx, n, items).value)
    decreases |items|
  {
    if items != [] {
      LeavesRead(cx, n, items[1..]);
      assert forall i :: 0 < i < |items| ==> items[i] == items[1..][i - 1];
      assert forall i :: 0 <= i < |items[1..]| ==> items[1..][i] == items[i + 1];
    }
  }

  lemma {:induction false} BodiesRead(cx: Context, n: nat, items: seq<C.Value>)
    requires Sound(cx.s) && n < |cx.s.nodes|
    ensures DecItems(cx, n, items).Some? <==> forall i :: 0 <= i < |items| ==> DecBody(cx, At(n), items[i]).Some?
    ensures DecItems(cx, n, items).Some? ==> BodiesReadInOrder(cx, n, items, DecItems(cx, n, items).value)
    decreases |items|
  {
    hide DecBody;
    if items != [] {
      BodiesRead(cx, n, items[1..]);
      assert forall i :: 0 < i < |items| ==> items[i] == items[1..][i - 1];
      assert forall i :: 0 <= i < |items[1..]| ==> items[1..][i] == items[i + 1];
    }
  }

  /** Some child seen under the side carries the SID. */
  predicate SideCarries(s: Schema, side: nat, sid: i64)
    requires Sound(s) && side < |s.nodes|
  {
    exists d: nat :: d in DataChildren(s.nodes, side) && d < |s.nodes| && s.nodes[d].sid == Some(sid)
  }

  /** What the sides of an rpc or action make of a map whose first key means the SID: input is asked first. */
  function FromSides(cx: Context, n: nat, sid: i64, c: C.Value): Option<Json>
    requires Sound(cx.s) && n < |cx.s.nodes|
  {
    var input, output := FindChild(cx.s, n, "input"), FindChild(cx.s, n, "output");
    if input.Some? && SideCarries(cx.s, input.value, sid) then UnderName("input", DecBody(cx, At(input.value), c))
    else if output.Some? && SideCarries(cx.s, output.value, sid) then UnderName("output", DecBody(cx, At(output.value), c))
    else None
  }

  function UnderName(name: string, v: Option<Json>): Option<Json> {
    match v case None => None case Some(x) => Some(JObj([Field(name, x)]))
  }

  /** The same the other way: arrays element by element in order, bodies of the node's own scope, one side of an rpc. */
  lemma NodeRead(cx: Context, n: nat, c: C.Value)
    requires Sound(cx.s) && n < |cx.s.nodes|
    ensures var r := DecNode(cx, n, c);
      match cx.s.nodes[n].kw
      case Leaf => r == OneLeafRead(cx, n, c)
      case LeafList =>
        && (r.Some? <==> c.Array? && forall i :: 0 <= i < |c.items| ==> OneLeafRead(cx, n, c.items[i]).Some?)
        && (r.Some? ==> r.value.JArr? && LeavesReadInOrder(cx, n, c.items, r.value.items))
      case Container | Input | Output => r == DecBody(cx, At(n), c)
      case List =>
        if c.Array? then
          && (r.Some? <==> forall i :: 0 <= i < |c.items| ==> DecBody(cx, At(n), c.items[i]).Some?)
          && (r.Some? ==> r.value.JArr? && BodiesReadInOrder(cx, n, c.items, r.value.items))
        else if c.Map? && (cx.cf == Fetch || cx.cf == Ipatch || cx.cf == Post) then r == DecBody(cx, At(n), c)
        else r == None
      case Rpc | Action =>
        if !c.Map? then r == None
        else if c.entries == [] then r == Some(JObj([]))
        else if !c.entries[0].key.Integer? then r == None
        else
          var own := if cx.s.nodes[n].sid.Some? then cx.s.nodes[n].sid.value else 0;
          r == FromSides(cx, n, AsI64(AsI64(c.entries[0].key.i) + own), c)
      case _ => r == None
  {
    hide DecBody, DecLeaves, DecItems, OneLeafRead, FromSides, SideOf;
    match cx.s.nodes[n].kw
    case Leaf => LeafRead(cx, n, c);
    case LeafList => if c.Array? { LeavesRead(cx, n, c.items); }
    case List => if c.Array? { BodiesRead(cx, n, c.items); }
    case Rpc | Action =>
      if c.Map? && c.entries != [] && c.entries[0].key.Integer? {
        var own := if cx.s.nodes[n].sid.Some? then cx.s.nodes[n].sid.value else 0;
        SidesRead(cx, n, AsI64(AsI64(c.entries[0].key.i) + own), c);
      }
    case _ =>
  }

  lemma LeafRead(cx: Context, n: nat, c: C.Value)
    requires n < |cx.s.nodes|
    ensures DecLeaf(cx, n, c) == OneLeafRead(cx, n, c)
  {
  }

  lemma SidesRead(cx: Context, n: nat, sid: i64, c: C.Value)
    requires Sound(cx.s) && n < |cx.s.nodes|
    ensures DecSide(cx, SideOf(cx.s, n, sid), c) == FromSides(cx, n, sid, c)
  {
    hide DecBody, FindChild, DataChildren;
  }

  // ---------------------------------------------------------------- local names

  /** The local name is what stands behind the last colon, or all of a name without one. */
  lemma {:induction false} LocalNameIs(before: string, name: string)
    requires ':' !in name
    ensures LocalName(name) == name && LocalName(before + ":" + name) == name
    decreases |before|
  {
    var s := before + ":" + name;
    if before == "" {
      assert s[0] == ':' && s[1..] == name;
    } else {
      LocalNameIs(before[1..], name);
      assert s[1..] == before[1..] + ":" + name;
      assert s[1..][|before| - 1] == ':';
    }
  }
}
