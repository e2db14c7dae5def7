// Two entries that do not come back unchanged, at a concrete schema: a leaf of type empty, and a leaf below a choice.

module YangWitness {
  import opened Bytes
  import opened YangSchema
  import opened YangJson
  import opened YangBody
  import opened YangIid
  import opened YangIidRoundTrip
  import opened YangSequence
  import L = YangLeaf
  import C = Cbor

  function NodeOf(kw: Kind, name: string, parent: Option<nat>, children: seq<nat>, ty: Option<Type>, sid: Option<i64>): Node {
    Node(kw, name, "m", parent, children, None, false, ty, [], sid)
  }

  function Only(b: Builtin): Option<Type> {
    Some(Type(b, [], [], [], None, "m"))
  }

  /** A top-level leaf of type empty, and a boolean leaf in a case of a top-level choice. */
  function Sample(): Schema {
    Schema(
      [NodeOf(Leaf, "m:e", None, [], Only(Empty), Some(1001)),
       NodeOf(Choice, "m:ch", None, [2], None, None),
       NodeOf(Case, "ca", Some(1), [3], None, None),
       NodeOf(Leaf, "m:x", Some(2), [], Only(Boolean), Some(1002))],
      [0, 1], map[1001 := 0, 1002 := 3], [])
  }

  function SampleContext(): Context {
    Context(Sample(), L.Codec([]), Ipatch)
  }

  lemma OneSegment(name: string)
    requires NoBrackets(name) && '/' !in name && name != ""
    ensures SplitOutside("/" + name, 0, "") == [name] && ParseSegment(name) == Some(Segment(name, []))
  {
    PlainIsWhole(name, 0);
    CutAtSlash(name, "");
    assert "/" + name + "" == "/" + name;
    NoSplit(name, '[');
  }

  /** The shape of the sample, as far as the lookups see it. */
  predicate Shaped(s: Schema) {
    && Sound(s) && |s.nodes| == 4 && s.roots == [0, 1] && s.index == map[1001 := 0, 1002 := 3]
    && s.nodes[0].kw == Leaf && s.nodes[1].kw == Choice && s.nodes[2].kw == Case && s.nodes[3].kw == Leaf
    && s.nodes[1].children == [2] && s.nodes[2].children == [3]
    && s.nodes[0].parent == None && s.nodes[1].parent == None && s.nodes[2].parent == Some(1)
    && s.nodes[3].parent == Some(2) && s.nodes[0].sid == Some(1001) && s.nodes[3].sid == Some(1002)
    && (forall n :: 0 <= n < 4 ==> s.nodes[n].keys == [])
  }

  predicate Named(s: Schema, a: string, b: string, c: string, d: string) {
    |s.nodes| == 4 && s.nodes[0].name == a && s.nodes[1].name == b && s.nodes[2].name == c && s.nodes[3].name == d
  }

  lemma TopLevel(s: Schema)
    requires Shaped(s)
    ensures Spliced(s.nodes, s.roots, 0) == [0, 3]
  {
    InCase(s);
    SplicedFirst(s.nodes, s.roots, 0);
    SplicedFirst(s.nodes, s.roots[1..], 0);
    assert s.roots[1..][1..] == [];
    assert [0] + ([3] + []) == [0, 3];
  }

  lemma InCase(s: Schema)
    requires Shaped(s)
    ensures Spliced(s.nodes, s.nodes[1].children, 2) == [3]
  {
    SplicedFirst(s.nodes, s.nodes[2].children, 3);
    SplicedFirst(s.nodes, s.nodes[1].children, 2);
    assert s.nodes[2].children[1..] == [] && s.nodes[1].children[1..] == [];
    assert [3] + [] == [3];
  }

  lemma NamesFound(s: Schema, a: string, b: string, c: string, d: string)
    requires Shaped(s) && Named(s, a, b, c, d) && a != d
    ensures FindSid(s, Tree, a) == Some((0, 1001)) && FindSid(s, Tree, d) == Some((3, 1002))
  {
    TopLevel(s);
    assert [0, 3][1..] == [3];
    assert FirstNamed(s.nodes, [3], d) == Some(3);
    assert FirstNamed(s.nodes, [0, 3], a) == Some(0) && FirstNamed(s.nodes, [0, 3], d) == Some(3);
  }

  lemma Resolves(cx: Context, name: string, n: nat, sid: i64)
    requires Sound(cx.s) && n < |cx.s.nodes| && cx.s.nodes[n].keys == []
    requires NoBrackets(name) && '/' !in name && name != "" && FindSid(cx.s, Tree, name) == Some((n, sid))
    ensures ResolveIid(cx, "/" + name) == Some((n, C.Integer(sid)))
  {
    OneSegment(name);
    var r := Resolved(n, sid, []);
    assert ResolveSegment(cx, Tree, name) == Some(r);
    assert [name][1..] == [] && [] + r.keys == [];
    assert ResolveSegments(cx, Tree, [name], 0, []) == ResolveSegments(cx, At(n), [], sid, []);
  }

  lemma Chains(s: Schema)
    requires Shaped(s)
    ensures Chain(s.nodes, 0) == [0] && Chain(s.nodes, 3) == [1, 2, 3]
  {
    assert Chain(s.nodes, 1) == [1];
    assert Chain(s.nodes, 2) == [1, 2];
  }

  lemma EmptyPrints(cx: Context, a: string, b: string, c: string, d: string)
    requires Shaped(cx.s) && Named(cx.s, a, b, c, d)
    ensures DecodeIid(cx, C.Integer(1001)) == Some((0, "/" + a))
  {
    Chains(cx.s);
    PrintNode(cx, 0, [], "");
    assert "/" + a + "" == "/" + a && [0] + [] == [0];
  }

  lemma ChoicePrints(cx: Context, a: string, b: string, c: string, d: string)
    requires Shaped(cx.s) && Named(cx.s, a, b, c, d)
    ensures DecodeIid(cx, C.Integer(1002)) == Some((3, "/" + b + "/" + c + "/" + d))
  {
    Chains(cx.s);
    assert [3] + [] == [3] && [2] + [3] == [2, 3] && [1] + [2, 3] == [1, 2, 3];
    PrintNode(cx, 3, [], "");
    PrintNode(cx, 2, [3], "/" + d + "");
    PrintNode(cx, 1, [2, 3], "/" + c + ("/" + d + ""));
    assert "/" + b + ("/" + c + ("/" + d + "")) == "/" + b + "/" + c + "/" + d;
  }

  lemma PrintNode(cx: Context, n: nat, chain: seq<nat>, path: string)
    requires Sound(cx.s) && n < |cx.s.nodes| && cx.s.nodes[n].keys == [] && AllBelow(chain, |cx.s.nodes|)
    requires PathText(cx, chain, []) == Some(path)
    ensures AllBelow([n] + chain, |cx.s.nodes|)
    ensures PathText(cx, [n] + chain, []) == Some("/" + cx.s.nodes[n].name + path)
  {
    PrintFirst(cx, n, chain, [], "", [], path);
    assert cx.s.nodes[n].name + "" == cx.s.nodes[n].name;
  }

  /** Both ways of an entry with a value, once its path is known to resolve and to print. */
  lemma EntryThereAndBack(cx: Context, path: string, shown: string, n: nat, sid: i64, v: Json, c: C.Value)
    requires Sound(cx.s) && IsSequence(cx.cf) && n < |cx.s.nodes| && v != JNull && EncNode(cx, n, v, false) == Some(c)
    requires ResolveIid(cx, path) == Some((n, C.Integer(sid))) && DecodeIid(cx, C.Integer(sid)) == Some((n, shown))
    requires DecEntryValue(cx, n, c).Some?
    ensures EncItem(cx, JObj([Field(path, v)]), false) == Some(C.Map([C.Entry(C.Integer(sid), c)]))
    ensures DecItem(cx, C.Map([C.Entry(C.Integer(sid), c)])) == Some(JObj([Field(shown, DecEntryValue(cx, n, c).value)]))
  {
  }

  /** The sample, under any names. */
  ghost predicate IsSample(cx: Context, a: string, b: string, c: string, d: string) {
    && Shaped(cx.s) && Named(cx.s, a, b, c, d) && cx.leaf == L.Codec(cx.s.identities) && IsSequence(cx.cf)
    && cx.s.nodes[0].ty == Only(Empty) && cx.s.nodes[3].ty == Only(Boolean)
    && a != d && a != "" && d != "" && NoBrackets(a) && NoBrackets(d) && '/' !in a && '/' !in d
  }

  lemma SampleIsShaped()
    ensures Shaped(Sample()) && Named(Sample(), "m:e", "m:ch", "ca", "m:x")
  {
  }

  lemma SampleIsOne()
    ensures IsSample(SampleContext(), "m:e", "m:ch", "ca", "m:x")
  {
    SampleIsShaped();
    var e, x := "m:e", "m:x";
    assert forall i :: 0 <= i < 3 ==> e[i] !in {'[', ']', '/'} && x[i] !in {'[', ']', '/'};
    assert NoBrackets(e) && NoBrackets(x) && '/' !in e && '/' !in x;
  }

  lemma LeafValues(cx: Context, a: string, b: string, c: string, d: string)
    requires IsSample(cx, a, b, c, d)
    ensures EncNode(cx, 0, JArr([JNull]), false) == Some(C.Null) && DecEntryValue(cx, 0, C.Null) == Some(JNull)
    ensures EncNode(cx, 3, JBool(true), false) == Some(C.Bool(true))
    ensures DecEntryValue(cx, 3, C.Bool(true)) == Some(JBool(true))
  {
  }

  lemma BothFound(cx: Context, a: string, b: string, c: string, d: string)
    requires IsSample(cx, a, b, c, d)
    ensures ResolveIid(cx, "/" + a) == Some((0, C.Integer(1001))) && ResolveIid(cx, "/" + d) == Some((3, C.Integer(1002)))
  {
    NamesFound(cx.s, a, b, c, d);
    Resolves(cx, a, 0, 1001);
    Resolves(cx, d, 3, 1002);
  }

  /** The entry says that the empty leaf is there; what comes back has no value. */
  lemma EmptyLeafComesBackAsNull(cx: Context, a: string, b: string, c: string, d: string)
    requires IsSample(cx, a, b, c, d)
    ensures EncItem(cx, JObj([Field("/" + a, JArr([JNull]))]), false) == Some(C.Map([C.Entry(C.Integer(1001), C.Null)]))
    ensures DecItem(cx, C.Map([C.Entry(C.Integer(1001), C.Null)])) == Some(JObj([Field("/" + a, JNull)]))
  {
    BothFound(cx, a, b, c, d);
    LeafValues(cx, a, b, c, d);
    EmptyPrints(cx, a, b, c, d);
    EntryThereAndBack(cx, "/" + a, "/" + a, 0, 1001, JArr([JNull]), C.Null);
  }

  /** The path of an instance leaves out choice and case; the path that comes back does not. */
  lemma ChoicePathComesBackLonger(cx: Context, a: string, b: string, c: string, d: string)
    requires IsSample(cx, a, b, c, d)
    ensures EncItem(cx, JObj([Field("/" + d, JBool(true))]), false) == Some(C.Map([C.Entry(C.Integer(1002), C.Bool(true))]))
    ensures DecItem(cx, C.Map([C.Entry(C.Integer(1002), C.Bool(true))]))
      == Some(JObj([Field("/" + b + "/" + c + "/" + d, JBool(true))]))
  {
    BothFound(cx, a, b, c, d);
    LeafValues(cx, a, b, c, d);
    ChoicePrints(cx, a, b, c, d);
    EntryThereAndBack(cx, "/" + d, "/" + b + "/" + c + "/" + d, 3, 1002, JBool(true), C.Bool(true));
  }
}
