// Sequences of fetch, ipatch and post entries: instance identifiers, alone or with a value, as a CBOR sequence and back.

module YangSequence {
  import opened Bytes
  import opened YangSchema
  import opened YangJson
  import opened YangBody
  import opened YangIid
  import opened YangIidRoundTrip
  import opened YangRoundTrip
  import opened YangBodyCodec
  import opened YangIidCodec
  import opened CborCodec
  import opened YangBits
  import YangIdentity
  import L = YangLeaf
  import C = Cbor
  import opened CborParse
  import R = CborRoundTrip

  // ---------------------------------------------------------------- encoding entries

  /** JSON null stands for the absence of a value. */
  function EncEntryValue(cx: Context, n: nat, v: Json, cont: bool): Option<C.Value>
    requires Sound(cx.s) && n < |cx.s.nodes|
  {
    if v == JNull then Some(C.Null) else EncNode(cx, n, v, cont)
  }

  lemma {:induction false} ResolvedExists(cx: Context, cur: Scope, texts: seq<string>, sid: i64, keys: seq<C.Value>)
    requires Sound(cx.s) && ScopeOk(cx.s, cur)
    ensures ResolveSegments(cx, cur, texts, sid, keys).Some? ==>
      ResolveSegments(cx, cur, texts, sid, keys).value.node < |cx.s.nodes|
    decreases |texts|
  {
    if texts != [] && ResolveSegment(cx, cur, texts[0]).Some? {
      var r := ResolveSegment(cx, cur, texts[0]).value;
      ResolvedExists(cx, At(r.node), texts[1..], r.sid, keys + r.keys);
    }
  }

  /** A path and a value: a map of one entry. */
  function EncPair(cx: Context, f: Field, cont: bool): Option<C.Value>
    requires Sound(cx.s)
  {
    match ResolveIid(cx, f.key)
    case None => None
    case Some((n, iid)) =>
      ResolvedExists(cx, Tree, SplitOutside(f.key, 0, ""), 0, []);
      match EncEntryValue(cx, n, f.val, cont) { case None => None case Some(x) => Some(C.Map([C.Entry(iid, x)])) }
  }

  /** One entry; a fetch entry may be a path alone. */
  function EncItem(cx: Context, item: Json, cont: bool): Option<C.Value>
    requires Sound(cx.s)
  {
    if !IsSequence(cx.cf) then None
    else if item.JObj? && |item.fields| == 1 then EncPair(cx, item.fields[0], cont)
    else if item.JStr? && cx.cf == Fetch then
      match ResolveIid(cx, item.s) { case None => None case Some((_, iid)) => Some(iid) }
    else None
  }

  function EncItems(cx: Context, items: seq<Json>, cont: bool): Option<seq<C.Value>>
    requires Sound(cx.s)
  {
    if items == [] then Some([])
    else
      match EncItem(cx, items[0], cont)
      case None => None
      case Some(c) => Cons(c, EncItems(cx, items[1..], cont))
  }

  // ---------------------------------------------------------------- decoding entries

  function DecEntryValue(cx: Context, n: nat, c: C.Value): Option<Json>
    requires Sound(cx.s) && n < |cx.s.nodes|
  {
    if c == C.Null then Some(JNull) else DecNode(cx, n, c)
  }

  function DecPair(cx: Context, e: C.Entry): Option<Json>
    requires Sound(cx.s)
  {
    match DecodeIid(cx, e.key)
    case None => None
    case Some((n, path)) =>
      match DecEntryValue(cx, n, e.val) { case None => None case Some(v) => Some(JObj([Field(path, v)])) }
  }

  function DecItem(cx: Context, c: C.Value): Option<Json>
    requires Sound(cx.s)
  {
    if c.Map? && |c.entries| == 1 then DecPair(cx, c.entries[0])
    else if cx.cf == Fetch then
      match DecodeIid(cx, c) { case None => None case Some((_, path)) => Some(JStr(path)) }
    else None
  }

  function DecItemSeq(cx: Context, items: seq<C.Value>): Option<seq<Json>>
    requires Sound(cx.s)
  {
    if items == [] then Some([])
    else match DecItem(cx, items[0]) { case None => None case Some(v) => Cons(v, DecItemSeq(cx, items[1..])) }
  }

  /** The entries of a CBOR sequence. */
  function CborSeqToJson(cx: Context, bytes: seq<byte>): Option<seq<Json>>
    requires Sound(cx.s)
  {
    match R.Values(bytes) { case None => None case Some(items) => DecItemSeq(cx, items) }
  }

  // ---------------------------------------------------------------- one entry there and back

  /** `steps` is a canonical data path and `raw` the whole chain of its last node. */
  ghost predicate Addresses(cx: Context, live: set<nat>, raw: seq<Step>, steps: seq<Step>)
    requires Sound(cx.s)
  {
    && OwnLeaves(cx) && PathOk(cx, raw) && PathSpelled(cx.s, raw) && RawPath(cx, raw)
    && AllBelow(Nodes(raw), |cx.s.nodes|)
    && steps == Shown(cx.s, raw) && DataPath(cx, Tree, steps) && steps != []
    && steps[|steps| - 1] == raw[|raw| - 1] && IndexFinds(cx.s, raw[|raw| - 1].node) && raw[|raw| - 1].node in live
    && Printable(cx.s, raw) && Printable(cx.s, steps)
  }

  /** No choice or case is on the chain. */
  predicate Plain(s: Schema, raw: seq<Step>) {
    forall i :: 0 <= i < |raw| ==> raw[i].node < |s.nodes| && !Transparent(s.nodes[raw[i].node].kw)
  }

  /** A leaf that is only there or not. */
  predicate IsEmptyLeaf(s: Schema, n: nat) {
    n < |s.nodes| && s.nodes[n].kw == Leaf && s.nodes[n].ty.Some? && s.nodes[n].ty.value.builtin == Empty
  }

  lemma {:induction false} NullLeaf(ids: seq<YangIdentity.Identity>, ty: Type, v: Json)
    requires L.TypeToCbor(ids, ty, v).Some?
    ensures L.TypeToCbor(ids, ty, v).value == C.Null <==> ty.builtin == Empty
  {
    if ty.builtin == Bits {
      var names := L.BitNames(v).value;
      assert EncodeNames(ty.bits, names).value != C.Null;
    }
  }

  lemma {:induction false} ObjectIsMap(cx: Context, n: nat, v: Json)
    requires Sound(cx.s) && n < |cx.s.nodes| && EncObject(cx, n, v, false).Some?
    ensures EncObject(cx, n, v, false).value.Map?
  {
    assert EncBody(cx, At(n), v.fields, false).value.Map?;
  }

  lemma {:induction false} BodyIsMap(cx: Context, n: nat, v: Json)
    requires Sound(cx.s) && n < |cx.s.nodes| && cx.s.nodes[n].kw != Leaf && EncNode(cx, n, v, false).Some?
    ensures EncNode(cx, n, v, false).value != C.Null
  {
    if cx.s.nodes[n].kw in {Rpc, Action} && |v.fields| == 1 && v.fields[0].key in {"input", "output"} {
      var f := v.fields[0];
      assert EncNode(cx, n, v, false) == EncSide(cx, n, f, false);
      ObjectIsMap(cx, FindChild(cx.s, n, f.key).value, f.val);
    }
  }

  /** A value is written as null exactly when there is none, or the node is a leaf of type empty. */
  lemma {:induction false} WrittenAsNull(cx: Context, n: nat, v: Json)
    requires Sound(cx.s) && OwnLeaves(cx) && n < |cx.s.nodes| && EncEntryValue(cx, n, v, false).Some?
    ensures EncEntryValue(cx, n, v, false).value == C.Null <==> v == JNull || IsEmptyLeaf(cx.s, n)
  {
    if v != JNull && cx.s.nodes[n].kw == Leaf {
      var ty := cx.s.nodes[n].ty.value;
      assert EncNode(cx, n, v, false) == EncLeaf(cx, n, v, false) == L.TypeToCbor(cx.s.identities, ty, v);
      NullLeaf(cx.s.identities, ty, v);
    } else if v != JNull {
      BodyIsMap(cx, n, v);
    }
  }

  lemma {:induction false} EntryValueRoundTrip(cx: Context, live: set<nat>, n: nat, v: Json)
    requires Ready(cx, live) && n in live && n < |cx.s.nodes| && (v == JNull || Canon(cx, n, v))
    requires EncEntryValue(cx, n, v, false).Some?
    ensures var c := EncEntryValue(cx, n, v, false).value;
      DecEntryValue(cx, n, c) == Some(if c == C.Null then JNull else v)
  {
    if v != JNull { NodeRoundTrip(cx, live, n, v); }
  }

  /**
   * An entry comes back with its raw path, and with its value unless it is for a leaf of type empty. So it comes back
   * unchanged exactly when its path passes no choice or case, and has no value or is not for a leaf of type empty.
   */
  lemma {:induction false} PairRoundTrip(cx: Context, live: set<nat>, raw: seq<Step>, steps: seq<Step>, v: Json)
    requires Ready(cx, live) && Addresses(cx, live, raw, steps)
    requires v == JNull || Canon(cx, raw[|raw| - 1].node, v)
    requires EncPair(cx, Field(PathString(cx.s, steps), v), false).Some?
    ensures var n := raw[|raw| - 1].node;
      var c := EncPair(cx, Field(PathString(cx.s, steps), v), false).value;
      && DecItem(cx, c) == Some(JObj([Field(PathString(cx.s, raw), if IsEmptyLeaf(cx.s, n) then JNull else v)]))
      && (DecItem(cx, c) == Some(JObj([Field(PathString(cx.s, steps), v)])) <==>
           Plain(cx.s, raw) && (v == JNull || !IsEmptyLeaf(cx.s, n)))
  {
    hide ResolveIid, DecodeIid, PathString;
    PathRoundTrip(cx, raw, steps);
    EntryValueRoundTrip(cx, live, raw[|raw| - 1].node, v);
    WrittenAsNull(cx, raw[|raw| - 1].node, v);
  }

  /** A path alone comes back as the raw path, unchanged exactly when it passes no choice or case. */
  lemma {:induction false} PathItemRoundTrip(cx: Context, live: set<nat>, raw: seq<Step>, steps: seq<Step>)
    requires Sound(cx.s) && Addresses(cx, live, raw, steps) && cx.cf == Fetch
    ensures EncItem(cx, JStr(PathString(cx.s, steps)), false).Some?
    ensures var c := EncItem(cx, JStr(PathString(cx.s, steps)), false).value;
      && DecItem(cx, c) == Some(JStr(PathString(cx.s, raw)))
      && (DecItem(cx, c) == Some(JStr(PathString(cx.s, steps))) <==> Plain(cx.s, raw))
  {
    hide DecodeIid, PathString, ResolveSegments;
    PathRoundTrip(cx, raw, steps);
  }

  // ---------------------------------------------------------------- whole sequences as bytes

  lemma {:induction false} KeysInRange(cx: Context, ks: seq<nat>, given: seq<(string, string)>)
    requires Sound(cx.s) && AllBelow(ks, |cx.s.nodes|) && Bounded(cx.leaf) && PickKeys(cx, ks, given).Some?
    ensures C.AllInRange(PickKeys(cx, ks, given).value)
    decreases |ks|
  {
    if ks != [] {
      KeysInRange(cx, ks[1..], given);
      var rest := PickKeys(cx, ks[1..], given).value;
      assert forall c: C.Value :: ([c] + rest)[1..] == rest;
    }
  }

  lemma {:induction false} InRangeConcat(a: seq<C.Value>, b: seq<C.Value>)
    requires C.AllInRange(a) && C.AllInRange(b)
    ensures C.AllInRange(a + b)
    decreases |a|
  {
    if a == [] {
      assert a + b == b;
    } else {
      InRangeConcat(a[1..], b);
      assert (a + b)[1..] == a[1..] + b;
    }
  }

  lemma {:induction false} SegmentsInRange(cx: Context, cur: Scope, texts: seq<string>, sid: i64, keys: seq<C.Value>)
    requires Sound(cx.s) && ScopeOk(cx.s, cur) && Bounded(cx.leaf) && C.AllInRange(keys)
    requires ResolveSegments(cx, cur, texts, sid, keys).Some?
    ensures C.AllInRange(ResolveSegments(cx, cur, texts, sid, keys).value.keys)
    decreases |texts|
  {
    if texts != [] {
      var r := ResolveSegment(cx, cur, texts[0]).value;
      KeysInRange(cx, cx.s.nodes[r.node].keys, ParseSegment(texts[0]).value.keys);
      InRangeConcat(keys, r.keys);
      SegmentsInRange(cx, At(r.node), texts[1..], r.sid, keys + r.keys);
    }
  }

  lemma {:induction false} IidInRange(cx: Context, path: string)
    requires Sound(cx.s) && Bounded(cx.leaf) && ResolveIid(cx, path).Some?
    ensures C.InRange(ResolveIid(cx, path).value.1)
  {
    SegmentsInRange(cx, Tree, SplitOutside(path, 0, ""), 0, []);
    var r := ResolveSegments(cx, Tree, SplitOutside(path, 0, ""), 0, []).value;
    assert ([C.Integer(r.sid)] + r.keys)[1..] == r.keys;
  }

  lemma {:induction false} PairInRange(cx: Context, f: Field)
    requires Sound(cx.s) && Bounded(cx.leaf) && EncPair(cx, f, false).Some?
    ensures C.InRange(EncPair(cx, f, false).value)
  {
    IidInRange(cx, f.key);
    ResolvedExists(cx, Tree, SplitOutside(f.key, 0, ""), 0, []);
    var (n, iid) := ResolveIid(cx, f.key).value;
    if f.val != JNull { NodeInRange(cx, n, f.val); }
    OneEntry(iid, EncEntryValue(cx, n, f.val, false).value);
  }

  lemma {:induction false} OneEntry(key: C.Value, val: C.Value)
    requires C.InRange(key) && C.InRange(val)
    ensures C.InRange(C.Map([C.Entry(key, val)]))
  {
    var es := [C.Entry(key, val)];
    assert C.EntryInRange(es[0]) && C.EntriesInRange(es[1..]);
    assert C.EntriesInRange(es);
  }

  lemma {:induction false} ItemInRange(cx: Context, item: Json)
    requires Sound(cx.s) && Bounded(cx.leaf) && EncItem(cx, item, false).Some?
    ensures C.InRange(EncItem(cx, item, false).value)
  {
    if item.JObj? && |item.fields| == 1 {
      PairInRange(cx, item.fields[0]);
    } else {
      IidInRange(cx, item.s);
    }
  }

  /** An entry that its encoding gives back. */
  ghost predicate CanonItem(cx: Context, live: set<nat>, item: Json)
    requires Sound(cx.s)
  {
    exists raw: seq<Step>, steps: seq<Step> :: Addresses(cx, live, raw, steps) && Plain(cx.s, raw)
      && ItemAt(cx, raw[|raw| - 1].node, PathString(cx.s, steps), item)
  }

  /** The path alone, or the path with a canonical value, or with none where the node is a leaf of type empty. */
  predicate ItemAt(cx: Context, n: nat, path: string, item: Json)
    requires Sound(cx.s) && n < |cx.s.nodes|
  {
    match item
    case JStr(s) => s == path && cx.cf == Fetch
    case JObj(fields) =>
      && |fields| == 1 && fields[0].key == path
      && (fields[0].val == JNull || (Canon(cx, n, fields[0].val) && !IsEmptyLeaf(cx.s, n)))
    case _ => false
  }

  lemma {:induction false} PairAtRoundTrip(cx: Context, live: set<nat>, raw: seq<Step>, steps: seq<Step>, f: Field)
    requires Ready(cx, live) && Addresses(cx, live, raw, steps) && Plain(cx.s, raw) && f.key == PathString(cx.s, steps)
    requires f.val == JNull || (Canon(cx, raw[|raw| - 1].node, f.val) && !IsEmptyLeaf(cx.s, raw[|raw| - 1].node))
    requires EncPair(cx, f, false).Some?
    ensures DecItem(cx, EncPair(cx, f, false).value) == Some(JObj([f]))
  {
    PairRoundTrip(cx, live, raw, steps, f.val);
  }

  lemma {:induction false} TextAtRoundTrip(cx: Context, live: set<nat>, raw: seq<Step>, steps: seq<Step>, path: string)
    requires Sound(cx.s) && Addresses(cx, live, raw, steps) && Plain(cx.s, raw) && cx.cf == Fetch
    requires path == PathString(cx.s, steps)
    ensures EncItem(cx, JStr(path), false).Some? && DecItem(cx, EncItem(cx, JStr(path), false).value) == Some(JStr(path))
  {
    PathItemRoundTrip(cx, live, raw, steps);
  }

  lemma {:induction false} ItemAtRoundTrip(cx: Context, live: set<nat>, raw: seq<Step>, steps: seq<Step>, item: Json)
    requires Ready(cx, live) && Addresses(cx, live, raw, steps) && Plain(cx.s, raw)
    requires ItemAt(cx, raw[|raw| - 1].node, PathString(cx.s, steps), item) && EncItem(cx, item, false).Some?
    ensures DecItem(cx, EncItem(cx, item, false).value) == Some(item)
  {
    if item.JStr? {
      TextAtRoundTrip(cx, live, raw, steps, item.s);
    } else {
      var f := item.fields[0];
      assert item == JObj([f]);
      assert EncItem(cx, item, false) == EncPair(cx, f, false);
      PairAtRoundTrip(cx, live, raw, steps, f);
    }
  }

  lemma {:induction false} ItemRoundTrip(cx: Context, live: set<nat>, item: Json)
    requires Ready(cx, live) && CanonItem(cx, live, item) && EncItem(cx, item, false).Some?
    ensures DecItem(cx, EncItem(cx, item, false).value) == Some(item)
  {
    var raw: seq<Step>, steps: seq<Step> :| Addresses(cx, live, raw, steps) && Plain(cx.s, raw)
      && ItemAt(cx, raw[|raw| - 1].node, PathString(cx.s, steps), item);
    ItemAtRoundTrip(cx, live, raw, steps, item);
  }

  lemma {:induction false} ItemsRoundTrip(cx: Context, live: set<nat>, items: seq<Json>)
    requires Ready(cx, live) && Bounded(cx.leaf) && EncItems(cx, items, false).Some?
    requires forall i :: 0 <= i < |items| ==> CanonItem(cx, live, items[i])
    ensures DecItemSeq(cx, EncItems(cx, items, false).value) == Some(items)
    ensures C.AllInRange(EncItems(cx, items, false).value)
    decreases |items|
  {
    if items != [] {
      ItemRoundTrip(cx, live, items[0]);
      ItemInRange(cx, items[0]);
      ItemsRoundTrip(cx, live, items[1..]);
      OneMore(cx, items, EncItem(cx, items[0], false).value, EncItems(cx, items[1..], false).value);
    }
  }

  lemma {:induction false} OneMore(cx: Context, items: seq<Json>, c: C.Value, rest: seq<C.Value>)
    requires Sound(cx.s) && items != []
    requires EncItem(cx, items[0], false) == Some(c) && EncItems(cx, items[1..], false) == Some(rest)
    requires DecItem(cx, c) == Some(items[0]) && DecItemSeq(cx, rest) == Some(items[1..])
    requires C.InRange(c) && C.AllInRange(rest)
    ensures EncItems(cx, items, false) == Some([c] + rest)
    ensures DecItemSeq(cx, [c] + rest) == Some(items) && C.AllInRange([c] + rest)
  {
    assert ([c] + rest)[1..] == rest;
    assert [items[0]] + items[1..] == items;
  }

  /** Canonical entries survive the way to a CBOR sequence and back: each of them, in order, and nothing else. */
  lemma {:induction false} SequenceRoundTrip(cx: Context, live: set<nat>, items: seq<Json>)
    requires Ready(cx, live) && Bounded(cx.leaf) && EncItems(cx, items, false).Some?
    requires forall i :: 0 <= i < |items| ==> CanonItem(cx, live, items[i])
    requires ItemsFit(cx, items, false)
    ensures CborSeqToJson(cx, JsonToCborSeq(cx, items, false).value) == Some(items)
  {
    ItemsRoundTrip(cx, live, items);
    AllItemsFit(cx, items, false);
    SequenceOfValues(EncItems(cx, items, false).value);
  }

  lemma {:induction false} SequenceOfValues(vals: seq<C.Value>)
    requires C.AllFit(vals) && C.AllInRange(vals)
    ensures R.Values(C.RenderAll(C.CanonAll(vals))) == Some(vals)
  {
    var bytes := C.RenderAll(C.CanonAll(vals));
    assert bytes[0..] == bytes;
    R.SequenceComplete(bytes, 0, C.CanonAll(vals));
  }

  /** Entries accepted without the continue flag are written identically with it. */
  lemma {:induction false} SequenceContinueAgrees(cx: Context, items: seq<Json>)
    requires Sound(cx.s) && EncItems(cx, items, false).Some?
    ensures EncItems(cx, items, true) == EncItems(cx, items, false)
    decreases |items|
  {
    if items != [] {
      if items[0].JObj? && |items[0].fields| == 1 {
        var f := items[0].fields[0];
        ResolvedExists(cx, Tree, SplitOutside(f.key, 0, ""), 0, []);
        if f.val != JNull { ContinueAgrees(cx, ResolveIid(cx, f.key).value.0, f.val); }
      }
      SequenceContinueAgrees(cx, items[1..]);
    }
  }

  // ---------------------------------------------------------------- as the source runs it

  method EncodeEntry(cx: Context, item: Json, cont: bool) returns (r: Option<C.Value>)
    requires Sound(cx.s)
    ensures r == EncItem(cx, item, cont)
  {
    if !IsSequence(cx.cf) { return None; }
    if item.JStr? && cx.cf == Fetch {
      var target := ResolvePath(cx, item.s);
      return if target.Some? then Some(target.value.1) else None;
    }
    if !item.JObj? || |item.fields| != 1 { return None; }
    var Field(path, val) := item.fields[0];
    var target := ResolvePath(cx, path);
    if target.None? { return None; }
    var (n, iid) := target.value;
    ResolvedExists(cx, Tree, SplitOutside(path, 0, ""), 0, []);
    if val == JNull { return Some(C.Map([C.Entry(iid, C.Null)])); }
    var encoded := EncodeNodeValue(cx, n, val, cont);
    return if encoded.Some? then Some(C.Map([C.Entry(iid, encoded.value)])) else None;
  }

  /** What an entry is written as fits in memory. */
  predicate ItemFits(cx: Context, item: Json, cont: bool)
    requires Sound(cx.s)
  {
    EncItem(cx, item, cont).Some? ==> C.Fits(EncItem(cx, item, cont).value)
  }

  predicate ItemsFit(cx: Context, items: seq<Json>, cont: bool)
    requires Sound(cx.s)
  {
    forall i :: 0 <= i < |items| ==> ItemFits(cx, items[i], cont)
  }

  lemma {:induction false} AllItemsFit(cx: Context, items: seq<Json>, cont: bool)
    requires Sound(cx.s) && ItemsFit(cx, items, cont) && EncItems(cx, items, cont).Some?
    ensures C.AllFit(EncItems(cx, items, cont).value)
    decreases |items|
  {
    if items != [] {
      assert ItemFits(cx, items[0], cont);
      assert ItemsFit(cx, items[1..], cont) by {
        forall i | 0 <= i < |items[1..]| ensures ItemFits(cx, items[1..][i], cont) {
          assert ItemFits(cx, items[i + 1], cont);
        }
      }
      AllItemsFit(cx, items[1..], cont);
      var rest := EncItems(cx, items[1..], cont).value;
      assert ([EncItem(cx, items[0], cont).value] + rest)[1..] == rest;
    }
  }

  /** The entries as the bytes of a CBOR sequence. */
  function JsonToCborSeq(cx: Context, items: seq<Json>, cont: bool): Option<seq<byte>>
    requires Sound(cx.s) && ItemsFit(cx, items, cont)
  {
    if EncItems(cx, items, cont).None? then None
    else
      AllItemsFit(cx, items, cont);
      Some(SeqBytes(EncItems(cx, items, cont).value))
  }

  function SeqBytes(vals: seq<C.Value>): seq<byte>
    requires C.AllFit(vals)
  {
    C.RenderAll(C.CanonAll(vals))
  }

  lemma {:induction false} SeqBytesMore(vals: seq<C.Value>, c: C.Value)
    requires C.AllFit(vals) && C.Fits(c)
    ensures C.AllFit(vals + [c]) && SeqBytes(vals + [c]) == SeqBytes(vals) + C.Encode(c)
    decreases |vals|
  {
    if vals == [] {
      assert [] + [c] == [c] && [c][1..] == [];
      assert SeqBytes([c]) == C.Encode(c) + SeqBytes([]);
      assert C.Encode(c) + [] == C.Encode(c) && [] + C.Encode(c) == C.Encode(c);
    } else {
      SeqBytesMore(vals[1..], c);
      assert (vals + [c])[1..] == vals[1..] + [c];
      RenderCons(C.Canon(vals[0]), C.CanonAll(vals[1..]));
      RenderCons(C.Canon(vals[0]), C.CanonAll(vals[1..] + [c]));
      SeqAssoc(C.Encode(vals[0]), SeqBytes(vals[1..]), C.Encode(c));
    }
  }

  /** The bytes of the entries' encodings, one behind the other; the first entry refused ends it. */
  method EncodeSequence(cx: Context, items: seq<Json>, cont: bool) returns (r: Option<seq<byte>>)
    requires Sound(cx.s) && ItemsFit(cx, items, cont)
    ensures r == JsonToCborSeq(cx, items, cont)
  {
    var out: seq<byte> := [];
    ghost var done: seq<C.Value> := [];
    AheadOne([], C.Null, EncItems(cx, items, cont));
    assert items[0..] == items;
    for i := 0 to |items|
      invariant EncItems(cx, items, cont) == Ahead(done, EncItems(cx, items[i..], cont))
      invariant C.AllFit(done) && out == SeqBytes(done)
    {
      assert items[i..][0] == items[i] && items[i..][1..] == items[i + 1..];
      var c := EncodeEntry(cx, items[i], cont);
      if c.None? { return None; }
      AheadOne(done, c.value, EncItems(cx, items[i + 1..], cont));
      assert ItemFits(cx, items[i], cont);
      SeqBytesMore(done, c.value);
      done := done + [c.value];
      var bytes := ToVec(c.value);
      out := out + bytes;
    }
    assert items[|items|..] == [];
    AheadDone(done);
    return Some(out);
  }

  method DecodeEntry(cx: Context, c: C.Value) returns (r: Option<Json>)
    requires Sound(cx.s)
    ensures r == DecItem(cx, c)
  {
    if c.Map? && |c.entries| == 1 {
      var iid, val := c.entries[0].key, c.entries[0].val;
      var target := DecodePath(cx, iid);
      if target.None? { return None; }
      var (n, path) := target.value;
      if val == C.Null { return Some(JObj([Field(path, JNull)])); }
      var decoded := DecodeNodeValue(cx, n, val);
      return if decoded.Some? then Some(JObj([Field(path, decoded.value)])) else None;
    }
    if cx.cf != Fetch { return None; }
    var target := DecodePath(cx, c);
    return if target.Some? then Some(JStr(target.value.1)) else None;
  }

  method DecodeSequence(cx: Context, bytes: seq<byte>) returns (r: Option<seq<Json>>)
    requires Sound(cx.s)
    ensures r == CborSeqToJson(cx, bytes)
  {
    var items := CborSeqFromBytes(bytes);
    if items.None? { return None; }
    var cs := items.value;
    var out: seq<Json> := [];
    AheadOne([], JNull, DecItemSeq(cx, cs));
    assert cs[0..] == cs;
    for i := 0 to |cs|
      invariant DecItemSeq(cx, cs) == Ahead(out, DecItemSeq(cx, cs[i..]))
    {
      assert cs[i..][0] == cs[i] && cs[i..][1..] == cs[i + 1..];
      var v := DecodeEntry(cx, cs[i]);
      if v.None? { return None; }
      AheadOne(out, v.value, DecItemSeq(cx, cs[i + 1..]));
      out := out + [v.value];
    }
    assert cs[|cs|..] == [];
    AheadDone(out);
    return Some(out);
  }
}
