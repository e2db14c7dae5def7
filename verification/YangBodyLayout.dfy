// Node bodies as they stand in CBOR (RFC 9254 section 4): which keys a map has, which node a key is read as, which fields a
// body must and may have, how repeated keys and lists come out, and which children a name can mean.

module YangBodyLayout {
  import opened Bytes
  import opened YangSchema
  import opened YangJson
  import opened YangBody
  import C = Cbor

  // ---------------------------------------------------------------- the base of a delta

  /** The node is the input or output of an rpc or action that has a SID. */
  predicate OfRpc(s: Schema, n: nat)
    requires Sound(s) && n < |s.nodes|
  {
    && s.nodes[n].kw in {Input, Output} && s.nodes[n].parent.Some?
    && s.nodes[s.nodes[n].parent.value].kw in {Rpc, Action} && s.nodes[s.nodes[n].parent.value].sid.Some?
  }

  /** What keys count from: the rpc's or action's SID on its sides, else the node's own SID, else zero, as in a whole tree. */
  predicate CountsFrom(s: Schema, scope: Scope, base: i64)
    requires Sound(s) && ScopeOk(s, scope)
  {
    match scope
    case Tree => base == 0
    case At(n) =>
      if OfRpc(s, n) then s.nodes[s.nodes[n].parent.value].sid == Some(base)
      else s.nodes[n].sid == Some(base) || (s.nodes[n].sid == None && base == 0)
  }

  lemma TheBase(s: Schema, scope: Scope, base: i64)
    requires Sound(s) && ScopeOk(s, scope)
    ensures CountsFrom(s, scope, base) <==> base == BaseOf(s, scope)
  {
  }

  /** A difference of SIDs that fits 64 bits is written as it is, and any other by its low 64 bits. */
  lemma KeyNumber(n: int)
    ensures (AsI64(n) - n) % 0x1_0000_0000_0000_0000 == 0
    ensures -0x8000_0000_0000_0000 <= n < 0x8000_0000_0000_0000 ==> AsI64(n) == n
  {
    var low := n % 0x1_0000_0000_0000_0000;
    assert (low - n) % 0x1_0000_0000_0000_0000 == 0;
  }

  // ---------------------------------------------------------------- what encoding writes

  /** The name is a child's, and the child carries a SID. */
  predicate Known(s: Schema, scope: Scope, key: string)
    requires Sound(s) && ScopeOk(s, scope)
  {
    FindIn(s, scope, key).Some? && s.nodes[FindIn(s, scope, key).value].sid.Some?
  }

  /** The entry of a field: the child's SID as counted from `base`, and the child's value. */
  predicate Written(cx: Context, scope: Scope, base: i64, f: Field, cont: bool, e: C.Entry)
    requires Sound(cx.s) && ScopeOk(cx.s, scope)
  {
    && Known(cx.s, scope, f.key)
    && var child := FindIn(cx.s, scope, f.key).value;
       && cx.s.nodes[child].name == f.key
       && e.key == C.Integer(AsI64(cx.s.nodes[child].sid.value - base))
       && EncNode(cx, child, f.val, cont) == Some(e.val)
  }

  /** One entry a field, in the order of the fields. */
  predicate AllWritten(cx: Context, scope: Scope, base: i64, fields: seq<Field>, cont: bool, es: seq<C.Entry>)
    requires Sound(cx.s) && ScopeOk(cx.s, scope)
  {
    |es| == |fields| && forall j :: 0 <= j < |fields| ==> Written(cx, scope, base, fields[j], cont, es[j])
  }

  lemma WrittenCons(cx: Context, scope: Scope, base: i64, f: Field, rest: seq<Field>, cont: bool, e: C.Entry, es: seq<C.Entry>)
    requires Sound(cx.s) && ScopeOk(cx.s, scope)
    requires Written(cx, scope, base, f, cont, e) && AllWritten(cx, scope, base, rest, cont, es)
    ensures AllWritten(cx, scope, base, [f] + rest, cont, [e] + es)
  {
    hide Written;
  }

  /** The fields that name a child with a SID, in their order. */
  function KnownFields(s: Schema, scope: Scope, fields: seq<Field>): seq<Field>
    requires Sound(s) && ScopeOk(s, scope)
  {
    if fields == [] then []
    else (if Known(s, scope, fields[0].key) then [fields[0]] else []) + KnownFields(s, scope, fields[1..])
  }

  lemma FirstWritten(cx: Context, scope: Scope, fields: seq<Field>, cont: bool) returns (e: C.Entry)
    requires Sound(cx.s) && ScopeOk(cx.s, scope) && fields != [] && EncFields(cx, scope, fields, cont).Some?
    ensures EncFields(cx, scope, fields[1..], cont).Some?
    ensures Known(cx.s, scope, fields[0].key) ==>
      Written(cx, scope, BaseOf(cx.s, scope), fields[0], cont, e)
      && EncFields(cx, scope, fields, cont).value == [e] + EncFields(cx, scope, fields[1..], cont).value
    ensures !Known(cx.s, scope, fields[0].key) ==>
      cont && EncFields(cx, scope, fields, cont) == EncFields(cx, scope, fields[1..], cont)
  {
    hide EncNode, FindIn, BaseOf, Forest, AtLeast;
    e := C.Entry(C.Null, C.Null);
    if Known(cx.s, scope, fields[0].key) { e := EncFields(cx, scope, fields, cont).value[0]; }
  }

  lemma {:induction false} FieldsWritten(cx: Context, scope: Scope, fields: seq<Field>, cont: bool)
    requires Sound(cx.s) && ScopeOk(cx.s, scope) && EncFields(cx, scope, fields, cont).Some?
    ensures
      AllWritten(cx, scope, BaseOf(cx.s, scope), KnownFields(cx.s, scope, fields), cont, EncFields(cx, scope, fields, cont).value)
    ensures !cont ==> KnownFields(cx.s, scope, fields) == fields
    decreases |fields|
  {
    if fields == [] { return; }
    var e := FirstWritten(cx, scope, fields, cont);
    FieldsWritten(cx, scope, fields[1..], cont);
    hide EncFields, Written, AllWritten, Known;
    assert [fields[0]] + fields[1..] == fields;
    if Known(cx.s, scope, fields[0].key) {
      WrittenCons(cx, scope, BaseOf(cx.s, scope), fields[0], KnownFields(cx.s, scope, fields[1..]), cont, e,
                  EncFields(cx, scope, fields[1..], cont).value);
    } else {
      assert [] + KnownFields(cx.s, scope, fields[1..]) == KnownFields(cx.s, scope, fields[1..]);
    }
  }

  /**
   * A body is a map with an entry for every field that names a child with a SID, in the order of the fields. Its key is the
   * child's SID less the node's own; less the rpc's or action's on a side of one; and as it is at the top of a tree.
   */
  lemma BodyWritten(cx: Context, scope: Scope, base: i64, fields: seq<Field>, cont: bool)
    requires Sound(cx.s) && ScopeOk(cx.s, scope) && CountsFrom(cx.s, scope, base) && EncBody(cx, scope, fields, cont).Some?
    ensures EncBody(cx, scope, fields, cont).value.Map?
    ensures AllWritten(cx, scope, base, KnownFields(cx.s, scope, fields), cont, EncBody(cx, scope, fields, cont).value.entries)
    ensures !cont ==> KnownFields(cx.s, scope, fields) == fields
  {
    hide EncFields, AllWritten, KnownFields, CountsFrom, BaseOf, Missing;
    TheBase(cx.s, scope, base);
    FieldsWritten(cx, scope, fields, cont);
  }

  /** Mandatory children and list keys, but no state data in a put or ipatch. */
  predicate Demanded(cx: Context, n: nat, c: nat)
    requires Sound(cx.s) && n < |cx.s.nodes| && c < |cx.s.nodes|
  {
    && !((cx.cf == Put || cx.cf == Ipatch) && cx.s.nodes[c].config == Some(false))
    && (|| cx.s.nodes[c].mandatory
        || exists k :: k in cx.s.nodes[n].keys && LocalName(cx.s.nodes[k].name) == LocalName(cx.s.nodes[c].name))
  }

  /** Some field has the child's name. */
  predicate Present(s: Schema, c: nat, fields: seq<Field>)
    requires c < |s.nodes|
  {
    exists j :: 0 <= j < |fields| && fields[j].key == s.nodes[c].name
  }

  /** Every demanded child is there. */
  predicate Complete(cx: Context, scope: Scope, fields: seq<Field>)
    requires Sound(cx.s) && ScopeOk(cx.s, scope)
  {
    scope.At? ==> forall c: nat :: c in DataChildren(cx.s.nodes, scope.n) && c < |cx.s.nodes| && Demanded(cx, scope.n, c) ==>
      Present(cx.s, c, fields)
  }

  lemma PresentIs(fields: seq<Field>, key: string)
    ensures HasKey(fields, key) <==> exists j :: 0 <= j < |fields| && fields[j].key == key
  {
    var i := KeyIndex(fields, key);
    assert i < |fields| ==> fields[i].key == key;
  }

  lemma DemandedIs(cx: Context, n: nat, c: nat)
    requires Sound(cx.s) && n < |cx.s.nodes| && c < |cx.s.nodes|
    ensures Required(cx, n, c) <==> Demanded(cx, n, c)
  {
    hide LocalName;
    if IsKeyOf(cx.s, n, c) {
      var i :| 0 <= i < |cx.s.nodes[n].keys| && LocalName(cx.s.nodes[cx.s.nodes[n].keys[i]].name) == LocalName(cx.s.nodes[c].name);
      assert cx.s.nodes[n].keys[i] in cx.s.nodes[n].keys;
    }
  }

  lemma CompleteIs(cx: Context, scope: Scope, fields: seq<Field>)
    requires Sound(cx.s) && ScopeOk(cx.s, scope)
    ensures Missing(cx, scope, fields) <==> !Complete(cx, scope, fields)
  {
    hide Required, Demanded, HasKey, DataChildren;
    if scope.At? {
      forall c: nat | c < |cx.s.nodes|
        ensures MissingChild(cx, scope.n, fields, c) <==> Demanded(cx, scope.n, c) && !Present(cx.s, c, fields)
      {
        DemandedIs(cx, scope.n, c);
        PresentIs(fields, cx.s.nodes[c].name);
      }
    }
  }

  lemma {:induction false} AllEncode(cx: Context, scope: Scope, fields: seq<Field>)
    requires Sound(cx.s) && ScopeOk(cx.s, scope)
    ensures EncFields(cx, scope, fields, false).Some? <==> forall j :: 0 <= j < |fields| ==> Encodes(cx, scope, fields[j])
    decreases |fields|
  {
    if fields == [] { return; }
    AllEncode(cx, scope, fields[1..]);
    OneEncodes(cx, scope, fields);
    hide Encodes, EncFields;
    assert forall j :: 0 < j < |fields| ==> fields[j] == fields[1..][j - 1];
    assert forall j :: 0 <= j < |fields[1..]| ==> fields[1..][j] == fields[j + 1];
  }

  /** The field names a child with a SID that accepts the value. */
  predicate Encodes(cx: Context, scope: Scope, f: Field)
    requires Sound(cx.s) && ScopeOk(cx.s, scope)
  {
    Known(cx.s, scope, f.key) && EncNode(cx, FindIn(cx.s, scope, f.key).value, f.val, false).Some?
  }

  lemma OneEncodes(cx: Context, scope: Scope, fields: seq<Field>)
    requires Sound(cx.s) && ScopeOk(cx.s, scope) && fields != []
    ensures EncFields(cx, scope, fields, false).Some? <==>
      Encodes(cx, scope, fields[0]) && EncFields(cx, scope, fields[1..], false).Some?
  {
    hide EncNode;
  }

  /** Strict encoding accepts exactly the bodies whose fields all name children that accept them, with no demanded one missing. */
  lemma StrictExactly(cx: Context, scope: Scope, fields: seq<Field>)
    requires Sound(cx.s) && ScopeOk(cx.s, scope)
    ensures EncBody(cx, scope, fields, false).Some? <==>
      (forall j :: 0 <= j < |fields| ==> Encodes(cx, scope, fields[j])) && Complete(cx, scope, fields)
  {
    hide EncFields, Encodes, Complete, Missing;
    AllEncode(cx, scope, fields);
    CompleteIs(cx, scope, fields);
  }

  // ---------------------------------------------------------------- what decoding reads

  /** A key, counted from `base`, is the SID under which the schema finds the node: its name, and the value decoded for it. */
  function ReadAs(cx: Context, base: i64, e: C.Entry): Option<Field>
    requires Sound(cx.s)
  {
    if !e.key.Integer? || AsI64(AsI64(e.key.i) + base) !in cx.s.index then None
    else
      var child := cx.s.index[AsI64(AsI64(e.key.i) + base)];
      match DecNode(cx, child, e.val) case None => None case Some(v) => Some(Field(cx.s.nodes[child].name, v))
  }

  function AllReadAs(cx: Context, base: i64, es: seq<C.Entry>): Option<seq<Field>>
    requires Sound(cx.s)
  {
    if es == [] then Some([])
    else match ReadAs(cx, base, es[0]) case None => None case Some(f) => Cons(f, AllReadAs(cx, base, es[1..]))
  }

  /** No later field has the name of the `j`th. */
  predicate IsLast(fs: seq<Field>, j: nat) {
    j < |fs| && forall k :: j < k < |fs| ==> fs[k].key != fs[j].key
  }

  predicate LastOf(fs: seq<Field>, f: Field) {
    exists j :: 0 <= j < |fs| && fs[j] == f && IsLast(fs, j)
  }

  /** Every name of `fs` once, where it comes first, with the value that comes last. */
  predicate Gathers(fs: seq<Field>, r: seq<Field>) {
    && DistinctKeys(r)
    && (forall i :: 0 <= i < |r| ==> LastOf(fs, r[i]))
    && (forall j :: 0 <= j < |fs| ==> HasKey(r, fs[j].key))
    && (forall a, b :: 0 <= a < b < |r| ==> KeyIndex(fs, r[a].key) < KeyIndex(fs, r[b].key))
  }

  lemma IndexIs(fs: seq<Field>, key: string, i: nat)
    requires i < |fs| && fs[i].key == key && forall j :: 0 <= j < i ==> fs[j].key != key
    ensures KeyIndex(fs, key) == i
  {
  }

  lemma IndexGrows(fs: seq<Field>, f: Field, key: string)
    ensures HasKey(fs, key) ==> KeyIndex(fs + [f], key) == KeyIndex(fs, key)
    ensures !HasKey(fs, key) && f.key == key ==> KeyIndex(fs + [f], key) == |fs|
  {
    PresentIs(fs, key);
    if HasKey(fs, key) {
      IndexIs(fs + [f], key, KeyIndex(fs, key));
    } else if f.key == key {
      IndexIs(fs + [f], key, |fs|);
    }
  }

  lemma LastStays(fs: seq<Field>, f: Field, g: Field)
    ensures LastOf(fs, g) && g.key != f.key ==> LastOf(fs + [f], g)
    ensures LastOf(fs + [f], f)
    ensures LastOf(fs, g) ==> HasKey(fs, g.key)
  {
    assert (fs + [f])[|fs|] == f && IsLast(fs + [f], |fs|);
    PresentIs(fs, g.key);
    if LastOf(fs, g) {
      var j :| 0 <= j < |fs| && fs[j] == g && IsLast(fs, j);
      assert (fs + [f])[j] == g && (g.key != f.key ==> IsLast(fs + [f], j));
    }
  }

  lemma InsertGathers(fs: seq<Field>, r: seq<Field>, f: Field)
    requires Gathers(fs, r)
    ensures Gathers(fs + [f], Insert(r, f))
  {
    hide LastOf, HasKey;
    var i, q := KeyIndex(r, f.key), Insert(r, f);
    PresentIs(r, f.key);
    forall k | 0 <= k < |q| ensures LastOf(fs + [f], q[k]) {
      LastStays(fs, f, if k < |r| then r[k] else f);
    }
    forall j | 0 <= j < |fs + [f]| ensures HasKey(q, (fs + [f])[j].key) {
      KeyStays(r, f, (fs + [f])[j].key);
    }
    forall a, b | 0 <= a < b < |q| ensures KeyIndex(fs + [f], q[a].key) < KeyIndex(fs + [f], q[b].key) {
      SameOrder(fs, r, f, a, b);
    }
  }

  lemma KeyStays(r: seq<Field>, f: Field, key: string)
    ensures HasKey(r, key) || f.key == key ==> HasKey(Insert(r, f), key)
  {
    PresentIs(r, key);
    PresentIs(Insert(r, f), key);
    var i := KeyIndex(r, f.key);
    if f.key == key {
      assert Insert(r, f)[i].key == key;
    } else if HasKey(r, key) {
      var j :| 0 <= j < |r| && r[j].key == key;
      assert Insert(r, f)[j].key == key;
    }
  }

  lemma SameOrder(fs: seq<Field>, r: seq<Field>, f: Field, a: nat, b: nat)
    requires Gathers(fs, r) && a < b < |Insert(r, f)|
    ensures KeyIndex(fs + [f], Insert(r, f)[a].key) < KeyIndex(fs + [f], Insert(r, f)[b].key)
  {
    var q := Insert(r, f);
    assert q[a].key == r[a].key && (b < |r| ==> q[b].key == r[b].key);
    LastStays(fs, f, r[a]);
    IndexGrows(fs, f, r[a].key);
    if b < |r| {
      LastStays(fs, f, r[b]);
      IndexGrows(fs, f, r[b].key);
    } else {
      assert q[b] == f && !HasKey(r, f.key);
      PresentIs(fs, f.key);
      IndexGrows(fs, f, f.key);
    }
  }

  lemma EntryReadAs(cx: Context, base: i64, e: C.Entry)
    requires Sound(cx.s)
    ensures DecEntry(cx, base, e) == ReadAs(cx, base, e)
  {
    hide DecNode;
  }

  lemma EntriesStep(cx: Context, base: i64, es: seq<C.Entry>, done: seq<Field>)
    requires Sound(cx.s)
    ensures DecEntries(cx, base, es, done) ==
      if es == [] then Some(done)
      else match DecEntry(cx, base, es[0]) case None => None case Some(f) => DecEntries(cx, base, es[1..], Insert(done, f))
  {
    hide DecEntry, Insert;
  }

  lemma {:induction false} EntriesRead(cx: Context, base: i64, es: seq<C.Entry>, before: seq<Field>, done: seq<Field>)
    requires Sound(cx.s) && Gathers(before, done)
    ensures DecEntries(cx, base, es, done).Some? <==> AllReadAs(cx, base, es).Some?
    ensures DecEntries(cx, base, es, done).Some? ==>
      Gathers(before + AllReadAs(cx, base, es).value, DecEntries(cx, base, es, done).value)
    decreases |es|
  {
    EntriesStep(cx, base, es, done);
    hide DecEntries, DecEntry, ReadAs, Insert, Gathers;
    if es == [] {
      assert before + [] == before;
    } else {
      EntryReadAs(cx, base, es[0]);
      match ReadAs(cx, base, es[0])
      case None =>
      case Some(f) =>
        InsertGathers(before, done, f);
        EntriesRead(cx, base, es[1..], before + [f], Insert(done, f));
        if AllReadAs(cx, base, es[1..]).Some? { SeqAssoc(before, [f], AllReadAs(cx, base, es[1..]).value); }
    }
  }

  lemma NothingGathered()
    ensures Gathers([], [])
  {
  }

  /**
   * Decoding accepts exactly the maps whose keys, counted from the same base, are SIDs the schema knows, with values that
   * their nodes accept. A name that comes up again keeps its first place and gets the last value.
   */
  lemma BodyRead(cx: Context, scope: Scope, base: i64, c: C.Value)
    requires Sound(cx.s) && ScopeOk(cx.s, scope) && CountsFrom(cx.s, scope, base)
    ensures DecBody(cx, scope, c).Some? <==> c.Map? && AllReadAs(cx, base, c.entries).Some?
    ensures DecBody(cx, scope, c).Some? ==> DecBody(cx, scope, c).value.JObj?
    ensures DecBody(cx, scope, c).Some? ==>
      Gathers(AllReadAs(cx, base, c.entries).value, DecBody(cx, scope, c).value.fields)
  {
    hide DecEntries, AllReadAs, Gathers, CountsFrom, BaseOf;
    TheBase(cx.s, scope, base);
    if c.Map? {
      NothingGathered();
      EntriesRead(cx, base, c.entries, [], []);
      if AllReadAs(cx, base, c.entries).Some? {
        assert [] + AllReadAs(cx, base, c.entries).value == AllReadAs(cx, base, c.entries).value;
      }
    }
  }

  lemma LastOnce(fs: seq<Field>, f: Field, g: Field)
    requires LastOf(fs, f) && LastOf(fs, g) && f.key == g.key
    ensures f == g
  {
    var j :| 0 <= j < |fs| && fs[j] == f && IsLast(fs, j);
    var k :| 0 <= k < |fs| && fs[k] == g && IsLast(fs, k);
  }

  /** Where two gatherings agree so far, the next of one comes no later than the next of the other. */
  lemma NextIsFirst(fs: seq<Field>, r: seq<Field>, q: seq<Field>, n: nat)
    requires Gathers(fs, r) && Gathers(fs, q) && n < |r| && n <= |q| && r[..n] == q[..n]
    ensures n < |q| && KeyIndex(fs, q[n].key) <= KeyIndex(fs, r[n].key)
  {
    hide LastOf, HasKey, KeyIndex;
    assert forall k :: 0 <= k < n ==> q[..n][k] == q[k] && r[..n][k] == r[k];
    LastStays(fs, r[n], r[n]);
    PresentIs(fs, r[n].key);
    PresentIs(q, fs[KeyIndex(fs, r[n].key)].key);
  }

  lemma {:induction false} GatheredAlike(fs: seq<Field>, r: seq<Field>, q: seq<Field>, n: nat)
    requires Gathers(fs, r) && Gathers(fs, q) && n <= |r|
    ensures n <= |q| && r[..n] == q[..n]
  {
    hide LastOf, HasKey;
    if n > 0 {
      GatheredAlike(fs, r, q, n - 1);
      NextIsFirst(fs, r, q, n - 1);
      NextIsFirst(fs, q, r, n - 1);
      LastStays(fs, r[n - 1], r[n - 1]);
      LastStays(fs, q[n - 1], q[n - 1]);
      assert r[n - 1].key == q[n - 1].key by {
        assert fs[KeyIndex(fs, r[n - 1].key)].key == fs[KeyIndex(fs, q[n - 1].key)].key;
      }
      LastOnce(fs, r[n - 1], q[n - 1]);
      assert r[..n] == r[..n - 1] + [r[n - 1]] && q[..n] == q[..n - 1] + [q[n - 1]];
    }
  }

  /** There is only one way to gather fields, and fields with distinct names stay as they are. */
  lemma GathersOnce(fs: seq<Field>, r: seq<Field>, q: seq<Field>)
    requires Gathers(fs, r)
    ensures Gathers(fs, q) ==> r == q
    ensures DistinctKeys(fs) ==> r == fs
  {
    if Gathers(fs, q) { GatheredSame(fs, r, q); }
    if DistinctKeys(fs) {
      DistinctGathers(fs);
      GatheredSame(fs, r, fs);
    }
  }

  lemma GatheredSame(fs: seq<Field>, r: seq<Field>, q: seq<Field>)
    requires Gathers(fs, r) && Gathers(fs, q)
    ensures r == q
  {
    hide Gathers;
    GatheredAlike(fs, r, q, |r|);
    GatheredAlike(fs, q, r, |q|);
    assert r[..|r|] == r && q[..|q|] == q;
  }

  lemma DistinctGathers(fs: seq<Field>)
    requires DistinctKeys(fs)
    ensures Gathers(fs, fs)
  {
    forall i | 0 <= i < |fs| ensures LastOf(fs, fs[i]) && HasKey(fs, fs[i].key) && KeyIndex(fs, fs[i].key) == i {
      assert IsLast(fs, i);
      IndexIs(fs, fs[i].key, i);
    }
  }
}
