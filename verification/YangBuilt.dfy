// The codec on schemas that the arena has built: with distinct SIDs they meet everything the round trips ask for.

module YangBuilt {
  import opened Bytes
  import opened YangSchema
  import opened YangArena
  import opened YangBody
  import opened YangJson
  import opened YangRoundTrip
  import YangIdentity
  import YangLeaf
  import C = Cbor

  /** The codec works on the arena's nodes, on root nodes of its modules in some order, and on the arena's SID index. */
  ghost predicate BuiltFrom(s: Schema, roots: Roots, templates: seq<nat>) {
    && Forest(s.nodes) && RootsOk(s.nodes, roots) && InArena(s.nodes, templates)
    && (forall i :: 0 <= i < |s.roots| ==> IsRoot(roots, s.roots[i]))
    && (forall k, n: nat :: k in s.index && s.index[k] == n <==>
         Reached(s.nodes, roots, templates, n) && s.nodes[n].sid == Some(k))
  }

  ghost predicate IsRoot(roots: Roots, n: nat) {
    exists m, k :: m in roots && 0 <= k < |roots[m]| && roots[m][k] == n
  }

  ghost function ReachedNodes(nodes: seq<Node>, roots: Roots, templates: seq<nat>): (r: set<nat>)
    requires Forest(nodes)
    ensures forall n: nat :: n in r <==> Reached(nodes, roots, templates, n)
  {
    set n: nat | n < |nodes| && Reached(nodes, roots, templates, n)
  }

  lemma {:induction false} RootIsLive(nodes: seq<Node>, roots: Roots, n: nat)
    requires Forest(nodes) && RootsOk(nodes, roots) && IsRoot(roots, n)
    ensures n < |nodes| && Live(nodes, roots, n)
  {
    var m, k :| m in roots && 0 <= k < |roots[m]| && roots[m][k] == n;
    assert roots[m][k] in roots[m];
  }

  lemma {:induction false} ChildIsReached(nodes: seq<Node>, roots: Roots, templates: seq<nat>, n: nat, i: nat)
    requires Forest(nodes) && Reached(nodes, roots, templates, n) && n < |nodes| && i < |nodes[n].children|
    ensures Reached(nodes, roots, templates, nodes[n].children[i])
  {
    var c := nodes[n].children[i];
    ChildLink(nodes, n, c);
    if !Live(nodes, roots, n) {
      var k :| 0 <= k < |templates| && Under(nodes, templates[k], n);
      assert Under(nodes, templates[k], c);
    }
  }

  /** A built schema is sound, and its index finds every node of the data tree and of the templates. */
  lemma {:induction false} BuiltIsIndexed(s: Schema, roots: Roots, templates: seq<nat>)
    requires BuiltFrom(s, roots, templates)
    ensures Sound(s) && Indexed(s, ReachedNodes(s.nodes, roots, templates))
  {
    var live := ReachedNodes(s.nodes, roots, templates);
    forall i | 0 <= i < |s.roots| ensures s.roots[i] in live && s.roots[i] < |s.nodes| {
      RootIsLive(s.nodes, roots, s.roots[i]);
    }
    forall k | k in s.index ensures s.index[k] < |s.nodes| {
      assert Reached(s.nodes, roots, templates, s.index[k]);
    }
    forall n, i | n in live && n < |s.nodes| && 0 <= i < |s.nodes[n].children| ensures s.nodes[n].children[i] in live {
      ChildIsReached(s.nodes, roots, templates, n, i);
    }
  }

  /**
   * On a schema built with distinct SIDs, with the modelled leaf types, every canonical tree comes back from its bytes,
   * key order included.
   */
  lemma {:induction false} BuiltTreeRoundTrip(s: Schema, roots: Roots, templates: seq<nat>, cf: Format, v: Json)
    requires BuiltFrom(s, roots, templates) && Sound(s) && v.JObj?
    requires RpcsOk(s, ReachedNodes(s.nodes, roots, templates))
    requires var cx := Context(s, YangLeaf.Codec(s.identities), cf);
      CanonBody(cx, Tree, v.fields) && TreeValue(cx, v, false).Some? && C.Fits(TreeValue(cx, v, false).value)
    ensures var cx := Context(s, YangLeaf.Codec(s.identities), cf);
      CborToJson(cx, C.Encode(TreeValue(cx, v, false).value)) == Some(v)
  {
    BuiltIsIndexed(s, roots, templates);
    YangLeaf.CodecIsFaithful(s.identities);
    TreeRoundTrip(Context(s, YangLeaf.Codec(s.identities), cf), ReachedNodes(s.nodes, roots, templates), v);
  }

  /** Index a finished arena and hand it to the codec. */
  method SchemaOf(b: Builder, order: seq<nat>, identities: seq<YangIdentity.Identity>) returns (s: Schema)
    requires b.Valid() && DistinctSids(b.nodes, b.moduleRoot, b.templates)
    requires forall i :: 0 <= i < |order| ==> IsRoot(b.moduleRoot, order[i])
    ensures BuiltFrom(s, b.moduleRoot, b.templates)
    ensures s.nodes == b.nodes && s.roots == order && s.identities == identities
  {
    var index := b.IndexAll();
    s := Schema(b.nodes, order, index, identities);
  }
}
