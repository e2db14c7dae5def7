// The instance-identifier codec as the source runs it: a scan with a bracket depth, a loop over selectors, a walk down
// the schema that accumulates keys, and a walk up the parents that hands them out again.

module YangIidCodec {
  import opened Bytes
  import opened YangSchema
  import opened YangBody
  import opened YangText
  import opened YangIid
  import opened YangBodyCodec
  import C = Cbor

  /** Cut at slashes outside brackets, leaving out empty pieces. */
  method SplitOutsideBrackets(path: string) returns (segs: seq<string>)
    ensures segs == SplitOutside(path, 0, "")
  {
    segs := [];
    var depth, start := 0, 0;
    assert path[0..] == path && path[0..0] == "" && [] + SplitOutside(path, 0, "") == SplitOutside(path, 0, "");
    for i := 0 to |path|
      invariant 0 <= start <= i
      invariant segs + SplitOutside(path[i..], depth, path[start..i]) == SplitOutside(path, 0, "")
    {
      var c := path[i];
      ghost var cur := path[start..i];
      assert path[i..][0] == c && path[i..][1..] == path[i + 1..];
      assert cur + [c] == path[start..i + 1];
      if c == '/' && depth == 0 {
        ghost var before := segs;
        if start < i { segs := segs + [path[start..i]]; }
        SeqAssoc(before, Piece(cur), SplitOutside(path[i + 1..], depth, ""));
        assert before + Piece(cur) == segs;
        start := i + 1;
      } else if c == '[' {
        depth := depth + 1;
      } else if c == ']' {
        depth := depth - 1;
      }
    }
    assert path[|path|..] == "" && path[start..|path|] == path[start..];
    assert SplitOutside("", depth, path[start..]) == Piece(path[start..]);
    if start < |path| { segs := segs + [path[start..]]; } else { assert segs + [] == segs; }
  }

  /** The name in front of the first bracket, and the key='value' selectors behind it. */
  method ParseIidSegment(seg: string) returns (r: Option<Segment>)
    ensures r == ParseSegment(seg)
  {
    var bracket := SplitOnce(seg, '[');
    if bracket.None? { return Some(Segment(seg, [])); }
    var (name, rest) := bracket.value;
    var keys: seq<(string, string)> := [];
    ghost var all := ParseKeys(rest);
    AheadOne([], ("", ""), all);
    while true
      invariant Ahead(keys, ParseKeys(rest)) == all
      decreases |rest|
    {
      var close := SplitOnce(rest, ']');
      if close.None? { return None; }
      SplitOnceShrinks(rest, ']');
      var (inner, after) := close.value;
      var parts := SplitOnce(inner, '=');
      if parts.None? { return None; }
      var first := (parts.value.0, Unquote(TrimEnd(TrimStart(parts.value.1))));
      var open := SplitOnce(after, '[');
      if open.None? {
        return Some(Segment(name, keys + [first]));
      }
      SplitOnceShrinks(after, '[');
      AheadOne(keys, first, ParseKeys(open.value.1));
      keys := keys + [first];
      rest := open.value.1;
    }
  }

  /** The given key values in key-statement order. */
  method OrderKeys(cx: Context, ks: seq<nat>, given: seq<(string, string)>) returns (r: Option<seq<C.Value>>)
    requires Sound(cx.s) && AllBelow(ks, |cx.s.nodes|)
    ensures r == PickKeys(cx, ks, given)
  {
    var ordered: seq<C.Value> := [];
    AheadOne([], C.Null, PickKeys(cx, ks, given));
    assert ks[0..] == ks;
    for i := 0 to |ks|
      invariant AllBelow(ks[i..], |cx.s.nodes|)
      invariant Ahead(ordered, PickKeys(cx, ks[i..], given)) == PickKeys(cx, ks, given)
    {
      assert ks[i..][0] == ks[i] && ks[i..][1..] == ks[i + 1..];
      var raw := Given(given, KeyName(cx.s, ks[i]));
      if raw.Some? {
        var c := EncKey(cx, ks[i], raw.value);
        if c.None? { return None; }
        AheadOne(ordered, c.value, PickKeys(cx, ks[i + 1..], given));
        ordered := ordered + [c.value];
      }
    }
    AheadDone(ordered);
    return Some(ordered);
  }

  method SelectorsKnown(s: Schema, ks: seq<nat>, given: seq<(string, string)>) returns (known: bool)
    requires Sound(s) && AllBelow(ks, |s.nodes|)
    ensures known == AllKnown(s, ks, given)
  {
    for i := 0 to |given|
      invariant forall j :: 0 <= j < i ==> IsName(s, ks, given[j].0)
    {
      if !IsName(s, ks, given[i].0) { return false; }
    }
    return true;
  }

  /** Walk down the schema, segment by segment, accumulating the keys of every list on the way. */
  method ResolvePath(cx: Context, path: string) returns (r: Option<(nat, C.Value)>)
    requires Sound(cx.s)
    ensures r == ResolveIid(cx, path)
  {
    var segs := SplitOutsideBrackets(path);
    var cur, lastSid: i64, allKeys := Tree, 0, [];
    ghost var all := ResolveSegments(cx, Tree, segs, 0, []);
    assert segs[0..] == segs;
    for i := 0 to |segs|
      invariant ScopeOk(cx.s, cur)
      invariant ResolveSegments(cx, cur, segs[i..], lastSid, allKeys) == all
    {
      assert segs[i..][0] == segs[i] && segs[i..][1..] == segs[i + 1..];
      var seg := ParseIidSegment(segs[i]);
      if seg.None? { return None; }
      var found := FindSid(cx.s, cur, seg.value.name);
      if found.None? { return None; }
      var child := found.value.0;
      var known := SelectorsKnown(cx.s, cx.s.nodes[child].keys, seg.value.keys);
      if !known { return None; }
      var ordered := OrderKeys(cx, cx.s.nodes[child].keys, seg.value.keys);
      if ordered.None? { return None; }
      cur, lastSid, allKeys := At(child), found.value.1, allKeys + ordered.value;
    }
    assert segs[|segs|..] == [];
    if cur.Tree? { return None; }
    return Some((cur.n, IidValue(lastSid, allKeys)));
  }

  /** The chain of parents, collected innermost first and turned round. */
  method ParentChain(nodes: seq<Node>, node: nat) returns (chain: seq<nat>)
    requires Forest(nodes) && node < |nodes|
    ensures chain == Chain(nodes, node)
  {
    chain := [node];
    var cur: nat := node;
    ghost var above := Above(nodes, node);
    assert Chain(nodes, node) == above + chain;
    while nodes[cur].parent.Some?
      invariant cur < |nodes| && Chain(nodes, node) == Above(nodes, cur) + chain
      decreases cur
    {
      var p := nodes[cur].parent.value;
      assert Above(nodes, cur) == Above(nodes, p) + [p];
      SeqAssoc(Above(nodes, p), [p], chain);
      chain := [p] + chain;
      cur := p;
    }
    assert [] + chain == chain;
  }

  /** The chain above a node. */
  function Above(nodes: seq<Node>, n: nat): seq<nat>
    requires Forest(nodes) && n < |nodes|
  {
    match nodes[n].parent case None => [] case Some(p) => Chain(nodes, p)
  }

  /** Print a node's path, every list on its chain taking its keys from the front. */
  method NodePathString(cx: Context, node: nat, given: seq<C.Value>) returns (r: Option<string>)
    requires Sound(cx.s) && node < |cx.s.nodes|
    ensures r == PathText(cx, Chain(cx.s.nodes, node), given)
  {
    var chain := ParentChain(cx.s.nodes, node);
    var path, keys := "", given;
    ghost var all := PathText(cx, chain, given);
    assert chain[0..] == chain && Onto("", all) == all by { if all.Some? { assert "" + all.value == all.value; } }
    for i := 0 to |chain|
      invariant AllBelow(chain[i..], |cx.s.nodes|)
      invariant Onto(path, PathText(cx, chain[i..], keys)) == all
    {
      assert chain[i..][0] == chain[i] && chain[i..][1..] == chain[i + 1..];
      var sel := PrintSelectors(cx, cx.s.nodes[chain[i]].keys, keys);
      if sel.None? { return None; }
      var (text, rest) := sel.value;
      OntoMore(path, "/" + cx.s.nodes[chain[i]].name + text, PathText(cx, chain[i + 1..], rest));
      path := path + ("/" + cx.s.nodes[chain[i]].name + text);
      keys := rest;
    }
    assert chain[|chain|..] == [] && path + "" == path;
    return Some(path);
  }

  function Onto(front: string, rest: Option<string>): Option<string> {
    match rest case None => None case Some(s) => Some(front + s)
  }

  lemma {:induction false} OntoMore(front: string, mid: string, rest: Option<string>)
    ensures Onto(front, Onto(mid, rest)) == Onto(front + mid, rest)
  {
    if rest.Some? { SeqAssoc(front, mid, rest.value); }
  }

  /** Text so far in front of the selectors still to be printed. */
  function OntoSelectors(front: string, rest: Option<(string, seq<C.Value>)>): Option<(string, seq<C.Value>)> {
    match rest case None => None case Some((s, keys)) => Some((front + s, keys))
  }

  lemma {:induction false} OntoSelectorsMore(front: string, mid: string, rest: Option<(string, seq<C.Value>)>)
    ensures OntoSelectors("", rest) == rest
    ensures OntoSelectors(front, OntoSelectors(mid, rest)) == OntoSelectors(front + mid, rest)
  {
    if rest.Some? {
      assert "" + rest.value.0 == rest.value.0;
      SeqAssoc(front, mid, rest.value.0);
    }
  }

  method PrintSelectors(cx: Context, ks: seq<nat>, given: seq<C.Value>) returns (r: Option<(string, seq<C.Value>)>)
    requires Sound(cx.s) && AllBelow(ks, |cx.s.nodes|)
    ensures r == KeySelectors(cx, ks, given)
  {
    var text, keys := "", given;
    ghost var all := KeySelectors(cx, ks, given);
    OntoSelectorsMore("", "", all);
    assert ks[0..] == ks;
    for i := 0 to |ks|
      invariant AllBelow(ks[i..], |cx.s.nodes|)
      invariant OntoSelectors(text, KeySelectors(cx, ks[i..], keys)) == all
    {
      assert ks[i..][0] == ks[i] && ks[i..][1..] == ks[i + 1..];
      if cx.s.nodes[ks[i]].ty.None? { return None; }
      if keys == [] {
        assert text + "" == text;
        return Some((text, []));
      }
      var v := cx.leaf.dec(cx.s.nodes[ks[i]].ty.value, keys[0]);
      if v.None? { return None; }
      var sel := Selector(KeyName(cx.s, ks[i]), KeyText(v.value));
      OntoSelectorsMore(text, sel, KeySelectors(cx, ks[i + 1..], keys[1..]));
      text, keys := text + sel, keys[1..];
    }
    assert ks[|ks|..] == [] && text + "" == text;
    return Some((text, keys));
  }

  /** A SID form as the node it addresses and a rebuilt path. */
  method DecodePath(cx: Context, c: C.Value) returns (r: Option<(nat, string)>)
    requires Sound(cx.s)
    ensures r == DecodeIid(cx, c)
  {
    var parts := SplitIid(c);
    if parts.None? { return None; }
    var (sid, keys) := parts.value;
    if sid !in cx.s.index { return None; }
    var node := cx.s.index[sid];
    var path := NodePathString(cx, node, keys);
    return if path.None? then None else Some((node, path.value));
  }
}
