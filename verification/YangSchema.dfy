// Schema nodes: an arena of nodes addressed by index, linked by child lists and parent indices.

module YangSchema {
  import opened Bytes
  import YangBits

  datatype Builtin =
    | Int8 | Int16 | Int32 | Int64 | Uint8 | Uint16 | Uint32 | Uint64
    | Boolean | Str | Binary | Empty | Enumeration | Bits | Identityref
    | Decimal64 | InstanceIdentifier | Leafref | Union

  datatype EnumVal = EnumVal(name: string, value: i64)

  datatype Type = Type(
    builtin: Builtin, ranges: seq<(int, int)>, bits: seq<YangBits.BitDef>, enums: seq<EnumVal>,
    identityValues: Option<seq<nat>>, sourceModule: string)

  datatype Kind =
    | Leaf | LeafList | Container | List | Choice | Case | Rpc | Action | Input | Output | Notification | Anydata | Anyxml

  datatype Node = Node(
    kw: Kind, name: string, owner: string, parent: Option<nat>, children: seq<nat>, config: Option<bool>,
    mandatory: bool, ty: Option<Type>, keys: seq<nat>, sid: Option<i64>)

  /** The part of a name behind its last colon. */
  function LocalName(name: string): string {
    if name == "" then "" else if ':' in name[1..] || name[0] == ':' then LocalName(name[1..]) else name
  }

  predicate NoDup<T(==)>(s: seq<T>) {
    forall i, j :: 0 <= i < j < |s| ==> s[i] != s[j]
  }

  /** Every child has a larger index than its parent, points back to it, and is listed once. */
  predicate Forest(nodes: seq<Node>) {
    && (forall p, k :: 0 <= p < |nodes| && 0 <= k < |nodes[p].children| ==>
         p < nodes[p].children[k] < |nodes| && nodes[nodes[p].children[k]].parent == Some(p))
    && (forall p :: 0 <= p < |nodes| ==> NoDup(nodes[p].children))
    && (forall c :: 0 <= c < |nodes| && nodes[c].parent.Some? ==> nodes[c].parent.value < c)
  }

  lemma ChildLink(nodes: seq<Node>, p: nat, c: nat)
    requires Forest(nodes) && p < |nodes| && c in nodes[p].children
    ensures p < c < |nodes| && nodes[c].parent == Some(p)
  {
    var k :| 0 <= k < |nodes[p].children| && nodes[p].children[k] == c;
  }

  // ---------------------------------------------------------------- children seen through choice and case

  predicate Transparent(k: Kind) {
    k == Choice || k == Case
  }

  /** All of `ids` exist and are at least `low`: children of a node below `low`. */
  predicate AtLeast(nodes: seq<Node>, ids: seq<nat>, low: nat) {
    forall i :: 0 <= i < |ids| ==> low <= ids[i] < |nodes|
  }

  /** `ids` with every choice and case replaced by its children, in place. */
  function Spliced(nodes: seq<Node>, ids: seq<nat>, low: nat): seq<nat>
    requires Forest(nodes) && AtLeast(nodes, ids, low)
    decreases |nodes| - low, |ids|
  {
    if ids == [] then []
    else
      (if Transparent(nodes[ids[0]].kw) then Spliced(nodes, nodes[ids[0]].children, ids[0] + 1) else [ids[0]])
      + Spliced(nodes, ids[1..], low)
  }

  function DataChildren(nodes: seq<Node>, n: nat): seq<nat>
    requires Forest(nodes) && n < |nodes|
  {
    Spliced(nodes, nodes[n].children, n + 1)
  }

  /** The nearest ancestor that is neither choice nor case. */
  function DataParent(nodes: seq<Node>, n: nat): Option<nat>
    requires Forest(nodes) && n < |nodes|
    decreases n
  {
    match nodes[n].parent
    case None => None
    case Some(p) => if Transparent(nodes[p].kw) then DataParent(nodes, p) else Some(p)
  }

  /** The parent a child list belongs to, seen as data: `p` itself unless it is a choice or case. */
  function DataOwner(nodes: seq<Node>, p: nat): Option<nat>
    requires Forest(nodes) && p < |nodes|
  {
    if Transparent(nodes[p].kw) then DataParent(nodes, p) else Some(p)
  }

  lemma ChildOwner(nodes: seq<Node>, p: nat, c: nat)
    requires Forest(nodes) && p < |nodes| && c < |nodes| && nodes[c].parent == Some(p)
    ensures DataParent(nodes, c) == DataOwner(nodes, p)
    ensures Transparent(nodes[c].kw) ==> DataOwner(nodes, c) == DataOwner(nodes, p)
  {
  }

  /** Visible nodes from `low` on whose data parent is `owner`. */
  predicate Belong(nodes: seq<Node>, owner: Option<nat>, ids: seq<nat>, low: nat)
    requires Forest(nodes)
  {
    forall c :: c in ids ==> low <= c < |nodes| && !Transparent(nodes[c].kw) && DataParent(nodes, c) == owner
  }

  lemma BelongOne(nodes: seq<Node>, owner: Option<nat>, c: nat, low: nat)
    requires Forest(nodes) && low <= c < |nodes| && !Transparent(nodes[c].kw) && DataParent(nodes, c) == owner
    ensures Belong(nodes, owner, [c], low)
  {
  }

  lemma BelongNone(nodes: seq<Node>, owner: Option<nat>, low: nat)
    requires Forest(nodes)
    ensures Belong(nodes, owner, [], low)
  {
  }

  lemma BelongConcat(nodes: seq<Node>, owner: Option<nat>, a: seq<nat>, b: seq<nat>, lowA: nat, lowB: nat)
    requires Forest(nodes) && Belong(nodes, owner, a, lowA) && Belong(nodes, owner, b, lowB) && lowB <= lowA
    ensures Belong(nodes, owner, a + b, lowB)
  {
  }

  /** Nodes listed as children of `p`. */
  predicate ChildrenOf(nodes: seq<Node>, p: nat, ids: seq<nat>, low: nat) {
    AtLeast(nodes, ids, low) && forall i :: 0 <= i < |ids| ==> nodes[ids[i]].parent == Some(p)
  }

  lemma OwnChildren(nodes: seq<Node>, c: nat)
    requires Forest(nodes) && c < |nodes|
    ensures ChildrenOf(nodes, c, nodes[c].children, c + 1)
  {
  }

  lemma FirstChild(nodes: seq<Node>, p: nat, ids: seq<nat>, low: nat)
    requires ChildrenOf(nodes, p, ids, low) && ids != []
    ensures low <= ids[0] < |nodes| && nodes[ids[0]].parent == Some(p)
    ensures AtLeast(nodes, ids, low) && ChildrenOf(nodes, p, ids[1..], low)
  {
  }

  lemma SplicedFirst(nodes: seq<Node>, ids: seq<nat>, low: nat)
    requires Forest(nodes) && AtLeast(nodes, ids, low) && ids != []
    ensures AtLeast(nodes, ids[1..], low) && AtLeast(nodes, nodes[ids[0]].children, ids[0] + 1)
    ensures Spliced(nodes, ids, low) ==
      (if Transparent(nodes[ids[0]].kw) then Spliced(nodes, nodes[ids[0]].children, ids[0] + 1) else [ids[0]])
      + Spliced(nodes, ids[1..], low)
  {
  }

  lemma SplicedNone(nodes: seq<Node>, low: nat)
    requires Forest(nodes)
    ensures Spliced(nodes, [], low) == []
  {
  }

  /** Splicing a child list gives visible nodes whose data parent is the list's owner. */
  lemma {:induction false} SplicedBelong(nodes: seq<Node>, p: nat, ids: seq<nat>, low: nat)
    requires Forest(nodes) && p < |nodes| && ChildrenOf(nodes, p, ids, low)
    ensures Belong(nodes, DataOwner(nodes, p), Spliced(nodes, ids, low), low)
    decreases |nodes| - low, |ids|
  {
    hide Forest, AtLeast, ChildrenOf, Belong, DataOwner, DataParent;
    if ids == [] {
      BelongNone(nodes, DataOwner(nodes, p), low);
      return;
    }
    hide Spliced;
    var c, owner := ids[0], DataOwner(nodes, p);
    FirstChild(nodes, p, ids, low);
    SplicedFirst(nodes, ids, low);
    ChildOwner(nodes, p, c);
    SplicedBelong(nodes, p, ids[1..], low);
    if Transparent(nodes[c].kw) {
      OwnChildren(nodes, c);
      SplicedBelong(nodes, c, nodes[c].children, c + 1);
      BelongConcat(nodes, owner, Spliced(nodes, nodes[c].children, c + 1), Spliced(nodes, ids[1..], low), c + 1, low);
    } else {
      BelongOne(nodes, owner, c, low);
      BelongConcat(nodes, owner, [c], Spliced(nodes, ids[1..], low), c, low);
    }
  }

  /** A data child of a container-like node has that node as its data parent. */
  lemma DataChildBelongs(nodes: seq<Node>, n: nat, c: nat)
    requires Forest(nodes) && n < |nodes| && c in DataChildren(nodes, n)
    ensures n < c < |nodes| && !Transparent(nodes[c].kw)
    ensures !Transparent(nodes[n].kw) ==> DataParent(nodes, c) == Some(n)
  {
    OwnChildren(nodes, n);
    SplicedBelong(nodes, n, nodes[n].children, n + 1);
  }

  /** The splice as the source computes it: recursion into choice and case, extending one vector. */
  method SpliceChildren(nodes: seq<Node>, ids: seq<nat>, ghost low: nat) returns (out: seq<nat>)
    requires Forest(nodes) && AtLeast(nodes, ids, low)
    ensures out == Spliced(nodes, ids, low)
    decreases |nodes| - low
  {
    hide Forest, Spliced;
    SplicedNone(nodes, low);
    out := [];
    assert ids[0..] == ids;
    for i := 0 to |ids|
      invariant out + Spliced(nodes, ids[i..], low) == Spliced(nodes, ids, low)
    {
      var id := ids[i];
      SplicedFirst(nodes, ids[i..], low);
      assert ids[i..][0] == id && ids[i..][1..] == ids[i + 1..];
      var part := [id];
      if Transparent(nodes[id].kw) { part := SpliceChildren(nodes, nodes[id].children, id + 1); }
      SeqAssoc(out, part, Spliced(nodes, ids[i + 1..], low));
      out := out + part;
    }
    assert ids[|ids|..] == [] && out + [] == out;
  }
}
