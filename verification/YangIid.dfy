// Instance identifiers (RFC 9254 section 6.13): paths with key selectors to a SID with key values, and back.

module YangIid {
  import opened Bytes
  import opened YangSchema
  import opened YangJson
  import opened YangBody
  import opened YangText
  import C = Cbor

  // ---------------------------------------------------------------- splitting a path

  /** Cut at slashes outside brackets and drop empty pieces; `cur` is the piece being read. */
  function SplitOutside(s: string, depth: int, cur: string): seq<string>
    decreases |s|
  {
    if s == "" then Piece(cur)
    else if s[0] == '/' && depth == 0 then Piece(cur) + SplitOutside(s[1..], depth, "")
    else SplitOutside(s[1..], NextDepth(depth, s[0]), cur + [s[0]])
  }

  function Piece(cur: string): seq<string> {
    if cur == "" then [] else [cur]
  }

  function NextDepth(depth: int, c: char): int {
    if c == '[' then depth + 1 else if c == ']' then depth - 1 else depth
  }

  /** The depth behind a text. */
  function EndDepth(s: string, depth: int): int
    decreases |s|
  {
    if s == "" then depth else EndDepth(s[1..], NextDepth(depth, s[0]))
  }

  /** Read from this depth, the text is not cut. */
  predicate Whole(s: string, depth: int)
    decreases |s|
  {
    s == "" || (!(s[0] == '/' && depth == 0) && Whole(s[1..], NextDepth(depth, s[0])))
  }

  lemma {:induction false} WholeAhead(s: string, rest: string, depth: int, cur: string)
    requires Whole(s, depth)
    ensures SplitOutside(s + rest, depth, cur) == SplitOutside(rest, EndDepth(s, depth), cur + s)
    decreases |s|
  {
    if s == "" {
      assert s + rest == rest && cur + s == cur;
    } else {
      assert (s + rest)[1..] == s[1..] + rest;
      WholeAhead(s[1..], rest, NextDepth(depth, s[0]), cur + [s[0]]);
      assert cur + [s[0]] + s[1..] == cur + s;
    }
  }

  lemma {:induction false} WholeConcat(a: string, b: string, depth: int)
    requires Whole(a, depth) && Whole(b, EndDepth(a, depth))
    ensures Whole(a + b, depth) && EndDepth(a + b, depth) == EndDepth(b, EndDepth(a, depth))
    decreases |a|
  {
    if a == "" {
      assert a + b == b;
    } else {
      assert (a + b)[1..] == a[1..] + b;
      WholeConcat(a[1..], b, NextDepth(depth, a[0]));
    }
  }

  predicate NoBrackets(s: string) {
    '[' !in s && ']' !in s
  }

  /** Text without brackets leaves the depth alone, and is not cut inside brackets or when it has no slash. */
  lemma {:induction false} PlainIsWhole(s: string, depth: int)
    requires NoBrackets(s) && (depth != 0 || '/' !in s)
    ensures Whole(s, depth) && EndDepth(s, depth) == depth
    decreases |s|
  {
    if s != "" {
      assert forall c :: c in s[1..] ==> c in s;
      PlainIsWhole(s[1..], depth);
    }
  }

  // ---------------------------------------------------------------- parsing a segment

  datatype Segment = Segment(name: string, keys: seq<(string, string)>)

  function TrimStart(s: string): string {
    if s != "" && IsSpace(s[0]) then TrimStart(s[1..]) else s
  }

  function TrimEnd(s: string): string {
    if s != "" && IsSpace(s[|s| - 1]) then TrimEnd(s[..|s| - 1]) else s
  }

  predicate Quoted(s: string, q: char) {
    |s| >= 2 && s[0] == q && s[|s| - 1] == q
  }

  function Unquote(s: string): string {
    if Quoted(s, '\'') || Quoted(s, '"') then s[1..|s| - 1] else s
  }

  lemma {:induction false} SplitOnceShrinks(s: string, c: char)
    requires SplitOnce(s, c).Some?
    ensures |SplitOnce(s, c).value.0| + 1 + |SplitOnce(s, c).value.1| == |s|
    decreases |s|
  {
    if s[0] != c { SplitOnceShrinks(s[1..], c); }
  }

  /** The selectors of a segment, from just behind an opening bracket on. */
  function ParseKeys(r: string): Option<seq<(string, string)>>
    decreases |r|
  {
    match SplitOnce(r, ']')
    case None => None
    case Some((inner, after)) =>
      SplitOnceShrinks(r, ']');
      match SplitOnce(inner, '=')
      case None => None
      case Some((k, v)) =>
        var first := (k, Unquote(TrimEnd(TrimStart(v))));
        match SplitOnce(after, '[')
        case None => Some([first])
        case Some((skipped, next)) =>
          SplitOnceShrinks(after, '[');
          Cons(first, ParseKeys(next))
  }

  function ParseSegment(seg: string): Option<Segment> {
    match SplitOnce(seg, '[')
    case None => Some(Segment(seg, []))
    case Some((name, r)) =>
      match ParseKeys(r) case None => None case Some(keys) => Some(Segment(name, keys))
  }

  // ---------------------------------------------------------------- key values

  /** A key's text as the JSON its type expects. */
  function ConvertKey(ty: Type, raw: string): Option<Json> {
    match ty.builtin
    case Int8 | Int16 | Int32 =>
      (match ParseInt(raw, -0x8000_0000_0000_0000, 0x7FFF_FFFF_FFFF_FFFF) case None => None case Some(n) => Some(JNum(n)))
    case Uint8 | Uint16 | Uint32 =>
      (match ParseInt(raw, 0, 0xFFFF_FFFF_FFFF_FFFF) case None => None case Some(n) => Some(JNum(n)))
    case Boolean => if raw == "true" then Some(JBool(true)) else if raw == "false" then Some(JBool(false)) else None
    case Empty => Some(if raw == "[null]" then JArr([JNull]) else JStr(raw))
    case _ => Some(JStr(raw))
  }

  /** A decoded key value as text: strings as they are, everything else as JSON. */
  function KeyText(v: Json): string {
    match v case JStr(s) => s case _ => JsonText(v)
  }

  /** A key value on the wire; never softened by the continue flag. */
  function EncKey(cx: Context, key: nat, raw: string): Option<C.Value>
    requires Sound(cx.s) && key < |cx.s.nodes|
  {
    match cx.s.nodes[key].ty
    case None => None
    case Some(ty) => match ConvertKey(ty, raw) { case None => None case Some(v) => cx.leaf.enc(ty, v) }
  }

  function KeyName(s: Schema, key: nat): string
    requires Sound(s) && key < |s.nodes|
  {
    LocalName(s.nodes[key].name)
  }

  /** The first value given for a key. */
  function Given(keys: seq<(string, string)>, name: string): Option<string> {
    if keys == [] then None else if keys[0].0 == name then Some(keys[0].1) else Given(keys[1..], name)
  }

  predicate AllBelow(ks: seq<nat>, n: nat) {
    forall i :: 0 <= i < |ks| ==> ks[i] < n
  }

  /** The key values given, in key-statement order; keys that are not given are passed over. */
  function PickKeys(cx: Context, ks: seq<nat>, given: seq<(string, string)>): Option<seq<C.Value>>
    requires Sound(cx.s) && AllBelow(ks, |cx.s.nodes|)
  {
    if ks == [] then Some([])
    else
      match Given(given, KeyName(cx.s, ks[0]))
      case None => PickKeys(cx, ks[1..], given)
      case Some(raw) =>
        match EncKey(cx, ks[0], raw) { case None => None case Some(c) => Cons(c, PickKeys(cx, ks[1..], given)) }
  }

  /** Every selector names a key of the node. */
  predicate AllKnown(s: Schema, ks: seq<nat>, given: seq<(string, string)>)
    requires Sound(s) && AllBelow(ks, |s.nodes|)
  {
    forall i :: 0 <= i < |given| ==> IsName(s, ks, given[i].0)
  }

  predicate IsName(s: Schema, ks: seq<nat>, name: string)
    requires Sound(s) && AllBelow(ks, |s.nodes|)
  {
    exists j :: 0 <= j < |ks| && KeyName(s, ks[j]) == name
  }

  // ---------------------------------------------------------------- path to SID

  datatype Resolved = Resolved(node: nat, sid: i64, keys: seq<C.Value>)

  /** One segment: the child it names, the child's SID and the key values given for it. */
  function ResolveSegment(cx: Context, cur: Scope, text: string): (r: Option<Resolved>)
    requires Sound(cx.s) && ScopeOk(cx.s, cur)
    ensures r.Some? ==> r.value.node < |cx.s.nodes|
  {
    match ParseSegment(text)
    case None => None
    case Some(seg) =>
      match FindSid(cx.s, cur, seg.name)
      case None => None
      case Some((child, sid)) =>
        var ks := cx.s.nodes[child].keys;
        if !AllKnown(cx.s, ks, seg.keys) then None
        else match PickKeys(cx, ks, seg.keys) { case None => None case Some(keys) => Some(Resolved(child, sid, keys)) }
  }

  /** The keys of all lists on the way accumulate. */
  function ResolveSegments(cx: Context, cur: Scope, texts: seq<string>, sid: i64, keys: seq<C.Value>): Option<Resolved>
    requires Sound(cx.s) && ScopeOk(cx.s, cur)
    decreases |texts|
  {
    if texts == [] then (if cur.At? then Some(Resolved(cur.n, sid, keys)) else None)
    else
      match ResolveSegment(cx, cur, texts[0])
      case None => None
      case Some(r) => ResolveSegments(cx, At(r.node), texts[1..], r.sid, keys + r.keys)
  }

  function IidValue(sid: i64, keys: seq<C.Value>): C.Value {
    if keys == [] then C.Integer(sid) else C.Array([C.Integer(sid)] + keys)
  }

  /** A path as the node it addresses and its SID form. */
  function ResolveIid(cx: Context, path: string): Option<(nat, C.Value)>
    requires Sound(cx.s)
  {
    match ResolveSegments(cx, Tree, SplitOutside(path, 0, ""), 0, [])
    case None => None
    case Some(r) => Some((r.node, IidValue(r.sid, r.keys)))
  }

  // ---------------------------------------------------------------- SID to path

  /** The raw chain of parents, choices and cases included, outermost first. */
  function Chain(nodes: seq<Node>, n: nat): (r: seq<nat>)
    requires Forest(nodes) && n < |nodes|
    ensures forall i :: 0 <= i < |r| ==> r[i] < |nodes|
    decreases n
  {
    match nodes[n].parent case None => [n] case Some(p) => Chain(nodes, p) + [n]
  }

  function Selector(name: string, value: string): string {
    "[" + name + "='" + value + "']"
  }

  /** Selectors for as many of the keys as there are values, and the values left over. */
  function KeySelectors(cx: Context, ks: seq<nat>, keys: seq<C.Value>): Option<(string, seq<C.Value>)>
    requires Sound(cx.s) && AllBelow(ks, |cx.s.nodes|)
  {
    if ks == [] then Some(("", keys))
    else
      match cx.s.nodes[ks[0]].ty
      case None => None
      case Some(ty) =>
        if keys == [] then Some(("", []))
        else
          match cx.leaf.dec(ty, keys[0])
          case None => None
          case Some(v) =>
            match KeySelectors(cx, ks[1..], keys[1..])
            case None => None
            case Some((text, rest)) => Some((Selector(KeyName(cx.s, ks[0]), KeyText(v)) + text, rest))
  }

  /** Every list on the chain takes its keys from the front. */
  function PathText(cx: Context, chain: seq<nat>, keys: seq<C.Value>): Option<string>
    requires Sound(cx.s) && AllBelow(chain, |cx.s.nodes|)
    decreases |chain|
  {
    if chain == [] then Some("")
    else
      match KeySelectors(cx, cx.s.nodes[chain[0]].keys, keys)
      case None => None
      case Some((text, rest)) =>
        match PathText(cx, chain[1..], rest)
        case None => None
        case Some(more) => Some("/" + cx.s.nodes[chain[0]].name + text + more)
  }

  function SplitIid(c: C.Value): Option<(i64, seq<C.Value>)> {
    match c
    case Integer(i) => Some((AsI64(i), []))
    case Array(items) =>
      if items != [] && items[0].Integer? then Some((AsI64(items[0].i), items[1..])) else None
    case _ => None
  }

  /** A SID form as the node it addresses and a path. */
  function DecodeIid(cx: Context, c: C.Value): Option<(nat, string)>
    requires Sound(cx.s)
  {
    match SplitIid(c)
    case None => None
    case Some((sid, keys)) =>
      if sid !in cx.s.index then None
      else
        var n := cx.s.index[sid];
        match PathText(cx, Chain(cx.s.nodes, n), keys) { case None => None case Some(path) => Some((n, path)) }
  }
}
