// Whole payloads: one tree, or a CBOR sequence of entries that pair an instance identifier with a value, for each content
// format; and what a value without a type is written as.

module YangMessageLayout {
  import opened Bytes
  import opened CborLayout
  import opened YangBody
  import opened YangIid
  import opened YangJson
  import opened YangRoundTrip
  import opened YangSchema
  import opened YangSequence
  import C = Cbor
  import R = CborRoundTrip

  /** A tree is one object of the top scope; with the continue flag anything else is written as an empty one. */
  lemma TreeWritten(cx: Context, v: Json, cont: bool)
    requires Sound(cx.s)
    ensures TreeValue(cx, v, cont) ==
      if v.JObj? && EncBody(cx, Tree, v.fields, cont).Some? then EncBody(cx, Tree, v.fields, cont)
      else if cont then Some(C.Map([])) else None
  {
    hide EncBody;
  }

  /** No bytes are an empty tree; else the first item counts, if all are well formed. */
  lemma TreeRead(cx: Context, bytes: seq<byte>)
    requires Sound(cx.s)
    ensures CborToJson(cx, bytes) ==
      if bytes == [] then Some(JObj([]))
      else if R.Values(bytes).Some? && R.Values(bytes).value != [] then DecBody(cx, Tree, R.Values(bytes).value[0])
      else None
  {
    hide DecBody, R.Values;
  }

  /** An entry is a map of one pair, identifier and value, and null stands for no value. */
  lemma EntryWritten(cx: Context, path: string, v: Json, cont: bool)
    requires Sound(cx.s)
    ensures EncItem(cx, JObj([Field(path, v)]), cont) ==
      if cx.cf !in {Fetch, Ipatch, Post} || ResolveIid(cx, path).None? then None
      else AsPair(ResolveIid(cx, path).value.1, ValueFor(cx, ResolveIid(cx, path).value.0, v, cont))
  {
    hide ResolveIid, EncNode;
    if ResolveIid(cx, path).Some? { Resolves(cx, path); }
  }

  lemma Resolves(cx: Context, path: string)
    requires Sound(cx.s) && ResolveIid(cx, path).Some?
    ensures ResolveIid(cx, path).value.0 < |cx.s.nodes|
  {
    ResolvedExists(cx, Tree, SplitOutside(path, 0, ""), 0, []);
  }

  function ValueFor(cx: Context, n: nat, v: Json, cont: bool): Option<C.Value>
    requires Sound(cx.s)
  {
    if n >= |cx.s.nodes| then None else if v == JNull then Some(C.Null) else EncNode(cx, n, v, cont)
  }

  function AsPair(iid: C.Value, v: Option<C.Value>): Option<C.Value> {
    match v case None => None case Some(x) => Some(C.Map([C.Entry(iid, x)]))
  }

  /** A fetch may also ask for a path alone; nothing else is an entry. */
  lemma PathWritten(cx: Context, item: Json, cont: bool)
    requires Sound(cx.s)
    ensures match item
      case JStr(s) =>
        EncItem(cx, item, cont) == if cx.cf == Fetch && ResolveIid(cx, s).Some? then Some(ResolveIid(cx, s).value.1) else None
      case JObj(fields) => |fields| != 1 ==> EncItem(cx, item, cont) == None
      case _ => EncItem(cx, item, cont) == None
  {
    hide ResolveIid, EncPair;
  }

  /** Read the same way: a map of one pair, or in a fetch an identifier alone. */
  lemma EntryRead(cx: Context, c: C.Value)
    requires Sound(cx.s)
    ensures DecItem(cx, c) ==
      if c.Map? && |c.entries| == 1 then
        (match DecodeIid(cx, c.entries[0].key)
         case None => None
         case Some((n, path)) => ReadPair(cx, n, path, c.entries[0].val))
      else if cx.cf == Fetch && DecodeIid(cx, c).Some? then Some(JStr(DecodeIid(cx, c).value.1))
      else None
  {
    hide DecodeIid, DecNode;
    if c.Map? && |c.entries| == 1 && DecodeIid(cx, c.entries[0].key).Some? { Decodes(cx, c.entries[0].key); }
  }

  lemma Decodes(cx: Context, c: C.Value)
    requires Sound(cx.s) && DecodeIid(cx, c).Some?
    ensures DecodeIid(cx, c).value.0 < |cx.s.nodes|
  {
  }

  function ReadPair(cx: Context, n: nat, path: string, c: C.Value): Option<Json>
    requires Sound(cx.s)
  {
    if n >= |cx.s.nodes| then None
    else if c == C.Null then Some(JObj([Field(path, JNull)]))
    else match DecNode(cx, n, c) case None => None case Some(v) => Some(JObj([Field(path, v)]))
  }

  predicate ItemsInOrder(cx: Context, items: seq<Json>, cont: bool, out: seq<C.Value>)
    requires Sound(cx.s)
  {
    |out| == |items| && forall i :: 0 <= i < |items| ==> EncItem(cx, items[i], cont) == Some(out[i])
  }

  lemma {:induction false} ItemsWritten(cx: Context, items: seq<Json>, cont: bool)
    requires Sound(cx.s)
    ensures EncItems(cx, items, cont).Some? <==> forall i :: 0 <= i < |items| ==> EncItem(cx, items[i], cont).Some?
    ensures EncItems(cx, items, cont).Some? ==> ItemsInOrder(cx, items, cont, EncItems(cx, items, cont).value)
    decreases |items|
  {
    hide EncItem;
    if items != [] {
      ItemsWritten(cx, items[1..], cont);
      assert forall i :: 0 < i < |items| ==> items[i] == items[1..][i - 1];
      assert forall i :: 0 <= i < |items[1..]| ==> items[1..][i] == items[i + 1];
    }
  }

  /** The entries are written one behind the other, in order. */
  lemma SequenceWritten(cx: Context, items: seq<Json>, cont: bool)
    requires Sound(cx.s) && ItemsFit(cx, items, cont)
    ensures JsonToCborSeq(cx, items, cont).Some? <==> EncItems(cx, items, cont).Some?
    ensures JsonToCborSeq(cx, items, cont).Some? ==>
      C.AllFit(EncItems(cx, items, cont).value) && JsonToCborSeq(cx, items, cont).value == EncodedAll(EncItems(cx, items, cont).value)
  {
    hide EncItems, EncodedAll, C.RenderAll, C.CanonAll, ItemsFit;
    if EncItems(cx, items, cont).Some? {
      AllItemsFit(cx, items, cont);
      EncodedAllIs(EncItems(cx, items, cont).value);
    }
  }

  predicate ItemsReadInOrder(cx: Context, items: seq<C.Value>, out: seq<Json>)
    requires Sound(cx.s)
  {
    |out| == |items| && forall i :: 0 <= i < |items| ==> DecItem(cx, items[i]) == Some(out[i])
  }

  lemma {:induction false} ItemsRead(cx: Context, items: seq<C.Value>)
    requires Sound(cx.s)
    ensures DecItemSeq(cx, items).Some? <==> forall i :: 0 <= i < |items| ==> DecItem(cx, items[i]).Some?
    ensures DecItemSeq(cx, items).Some? ==> ItemsReadInOrder(cx, items, DecItemSeq(cx, items).value)
    decreases |items|
  {
    hide DecItem;
    if items != [] {
      ItemsRead(cx, items[1..]);
      assert forall i :: 0 < i < |items| ==> items[i] == items[1..][i - 1];
      assert forall i :: 0 <= i < |items[1..]| ==> items[1..][i] == items[i + 1];
    }
  }

  // ---------------------------------------------------------------- without a type

  predicate GenericInOrder(items: seq<Json>, out: seq<C.Value>) {
    |out| == |items| && forall i :: 0 <= i < |items| ==> out[i] == Generic(items[i])
  }

  predicate GenericFieldsInOrder(fields: seq<Field>, out: seq<C.Entry>) {
    |out| == |fields| && forall i :: 0 <= i < |fields| ==> out[i] == C.Entry(C.Text(fields[i].key), Generic(fields[i].val))
  }

  lemma {:induction false} GenericsIs(items: seq<Json>)
    ensures GenericInOrder(items, Generics(items))
    decreases |items|
  {
    if items != [] {
      GenericsIs(items[1..]);
      assert forall i :: 0 < i < |items| ==> items[i] == items[1..][i - 1] && Generics(items)[i] == Generics(items[1..])[i - 1];
    }
  }

  lemma {:induction false} GenericFieldsIs(fields: seq<Field>)
    ensures GenericFieldsInOrder(fields, GenericFields(fields))
    decreases |fields|
  {
    if fields != [] {
      GenericFieldsIs(fields[1..]);
      assert forall i :: 0 < i < |fields| ==>
        fields[i] == fields[1..][i - 1] && GenericFields(fields)[i] == GenericFields(fields[1..])[i - 1];
      assert GenericField(fields[0]) == C.Entry(C.Text(fields[0].key), Generic(fields[0].val));
    }
  }

  /** Without a type a value is written for what it is, fractions as text, objects with their keys as text. */
  lemma GenericWritten(v: Json)
    ensures match v
      case JNull => Generic(v) == C.Null
      case JBool(b) => Generic(v) == C.Bool(b)
      case JNum(n) => Generic(v) == C.Integer(n)
      case JFraction(text) => Generic(v) == C.Text(text)
      case JStr(s) => Generic(v) == C.Text(s)
      case JArr(items) => Generic(v).Array? && GenericInOrder(items, Generic(v).items)
      case JObj(fields) => Generic(v).Map? && GenericFieldsInOrder(fields, Generic(v).entries)
  {
    match v
    case JArr(items) => GenericsIs(items);
    case JObj(fields) => GenericFieldsIs(fields);
    case _ =>
  }
}
