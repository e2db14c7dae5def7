// Building the arena: node creation, config overrides, removal and deviations edit it in place; whatever the order, the
// live nodes stay a forest, config-less subtrees stay config-less, and the SID index is exact.

module YangArena {
  import opened Bytes
  import opened YangSchema

  type Roots = map<string, seq<nat>>

  /** Root lists hold parentless nodes of their module, each once. */
  predicate RootsOk(nodes: seq<Node>, roots: Roots) {
    && (forall m, k :: m in roots && 0 <= k < |roots[m]| ==>
         roots[m][k] < |nodes| && nodes[roots[m][k]].parent == None && nodes[roots[m][k]].owner == m)
    && (forall m :: m in roots ==> NoDup(roots[m]))
  }

  /** Below a node without a config property (an rpc, action or notification) no node has one. */
  predicate ConfigLess(nodes: seq<Node>) {
    forall c :: 0 <= c < |nodes| && nodes[c].parent.Some? && nodes[c].parent.value < |nodes| ==>
      nodes[nodes[c].parent.value].config == None ==> nodes[c].config == None
  }

  /** Keys and templates point into the arena. */
  predicate InArena(nodes: seq<Node>, templates: seq<nat>) {
    && (forall n, i :: 0 <= n < |nodes| && 0 <= i < |nodes[n].keys| ==> nodes[n].keys[i] < |nodes|)
    && (forall i :: 0 <= i < |templates| ==> templates[i] < |nodes|)
  }

  /** Listed by its parent, or by its module when it has no parent. */
  predicate Listed(nodes: seq<Node>, roots: Roots, n: nat)
    requires n < |nodes|
  {
    match nodes[n].parent
    case None => nodes[n].owner in roots && n in roots[nodes[n].owner]
    case Some(p) => p < |nodes| && n in nodes[p].children
  }

  /** Reachable from a module's roots through child lists. */
  predicate Live(nodes: seq<Node>, roots: Roots, n: nat)
    requires Forest(nodes)
    decreases n
  {
    n < |nodes| && Listed(nodes, roots, n) && (nodes[n].parent.Some? ==> Live(nodes, roots, nodes[n].parent.value))
  }

  /** `n` is `top` or below it, by parent links. */
  predicate Below(nodes: seq<Node>, top: nat, n: nat)
    requires Forest(nodes)
    decreases n
  {
    n < |nodes| && (n == top || (nodes[n].parent.Some? && Below(nodes, top, nodes[n].parent.value)))
  }

  lemma {:induction false} ConfigLessBelow(nodes: seq<Node>, top: nat, n: nat)
    requires Forest(nodes) && ConfigLess(nodes) && Below(nodes, top, n) && top < |nodes| && nodes[top].config == None
    ensures nodes[n].config == None
    decreases n
  {
    if n != top { ConfigLessBelow(nodes, top, nodes[n].parent.value); }
  }

  // ---------------------------------------------------------------- node lists under editing

  function Without(s: seq<nat>, x: nat): (r: seq<nat>)
    ensures forall y :: y in r <==> y in s && y != x
    ensures NoDup(s) ==> NoDup(r)
    ensures |r| <= |s|
  {
    if s == [] then []
    else
      var rest := Without(s[1..], x);
      assert forall i :: 0 <= i < |s[1..]| ==> s[1..][i] == s[i + 1];
      if s[0] == x then rest else
        assert NoDup(s) ==> s[0] !in rest;
        [s[0]] + rest
  }

  /** What is left keeps its order. */
  lemma {:induction false} WithoutIs(a: seq<nat>, y: nat, b: seq<nat>, x: nat)
    ensures Without([], x) == []
    ensures Without(a + [y] + b, x) == Without(a, x) + (if y == x then [] else [y]) + Without(b, x)
    decreases |a|
  {
    var s := a + [y] + b;
    if a == [] {
      assert s[1..] == b && s[0] == y;
    } else {
      assert s[1..] == a[1..] + [y] + b && s[0] == a[0];
      WithoutIs(a[1..], y, b, x);
    }
  }

  lemma NoDupSnoc(s: seq<nat>, x: nat)
    requires NoDup(s) && x !in s
    ensures NoDup(s + [x])
  {
  }

  /** The links of `nodes` and `after` agree on every node of `nodes`. */
  predicate SameLinks(nodes: seq<Node>, after: seq<Node>) {
    |after| == |nodes| && forall i :: 0 <= i < |nodes| ==>
      && after[i].parent == nodes[i].parent && after[i].children == nodes[i].children && after[i].owner == nodes[i].owner
      && after[i].kw == nodes[i].kw && after[i].name == nodes[i].name
  }

  lemma SameLinksForest(nodes: seq<Node>, after: seq<Node>)
    requires Forest(nodes) && SameLinks(nodes, after)
    ensures Forest(after)
  {
  }

  // ---------------------------------------------------------------- creation

  function NewConfig(nodes: seq<Node>, kw: Kind, parent: Option<nat>): Option<bool>
    requires parent.Some? ==> parent.value < |nodes|
  {
    if kw in {Rpc, Action, Notification} then None
    else match parent case Some(p) => nodes[p].config case None => Some(true)
  }

  function Blank(nodes: seq<Node>, kw: Kind, name: string, owner: string, parent: Option<nat>): Node
    requires parent.Some? ==> parent.value < |nodes|
  {
    Node(kw, name, owner, parent, [], NewConfig(nodes, kw, parent), false, None, [], None)
  }

  /** Node `p` with one more child. */
  function Adopt(nodes: seq<Node>, p: nat, c: nat): seq<Node>
    requires p < |nodes|
  {
    nodes[p := nodes[p].(children := nodes[p].children + [c])]
  }

  function Created(nodes: seq<Node>, kw: Kind, name: string, owner: string, parent: Option<nat>, detached: bool): seq<Node>
    requires parent.Some? ==> parent.value < |nodes|
  {
    var grown := nodes + [Blank(nodes, kw, name, owner, parent)];
    if !detached && parent.Some? then Adopt(grown, parent.value, |nodes|) else grown
  }

  lemma CreatedKeepsForest(nodes: seq<Node>, kw: Kind, name: string, owner: string, parent: Option<nat>, detached: bool)
    requires Forest(nodes) && (parent.Some? ==> parent.value < |nodes|)
    ensures Forest(Created(nodes, kw, name, owner, parent, detached))
    ensures ConfigLess(nodes) ==> ConfigLess(Created(nodes, kw, name, owner, parent, detached))
  {
    var after := Created(nodes, kw, name, owner, parent, detached);
    var id := |nodes|;
    forall p | 0 <= p < |after| ensures NoDup(after[p].children) {
      if p < id {
        assert forall c :: c in nodes[p].children ==> c < id by {
          forall c | c in nodes[p].children ensures c < id { ChildLink(nodes, p, c); }
        }
        NoDupSnoc(nodes[p].children, id);
      }
    }
    forall p, k | 0 <= p < |after| && 0 <= k < |after[p].children|
      ensures p < after[p].children[k] < |after| && after[after[p].children[k]].parent == Some(p)
    {
      if k < |nodes[p].children| { assert after[p].children[k] == nodes[p].children[k]; }
    }
  }

  /** Creating a node leaves every other node's liveness as it was; the new one is live when it is attached to a live place. */
  lemma {:induction false} CreatedLive(nodes: seq<Node>, roots: Roots, kw: Kind, name: string, owner: string,
                                       parent: Option<nat>, detached: bool, after: seq<Node>, roots': Roots, n: nat)
    requires Forest(nodes) && RootsOk(nodes, roots) && (parent.Some? ==> parent.value < |nodes|)
    requires after == Created(nodes, kw, name, owner, parent, detached) && Forest(after)
    requires !detached && parent.None? ==> owner in roots
    requires roots' == if !detached && parent.None? then roots[owner := roots[owner] + [|nodes|]] else roots
    ensures n < |nodes| ==> Live(after, roots', n) == Live(nodes, roots, n)
    ensures n == |nodes| ==> (Live(after, roots', n) <==> !detached && (parent.Some? ==> Live(nodes, roots, parent.value)))
    decreases n
  {
    if n <= |nodes| {
      if after[n].parent.Some? {
        CreatedLive(nodes, roots, kw, name, owner, parent, detached, after, roots', after[n].parent.value);
      }
      if n < |nodes| {
        assert Listed(after, roots', n) == Listed(nodes, roots, n);
      } else {
        NewListed(nodes, roots, kw, name, owner, parent, detached, after, roots');
      }
    }
  }

  lemma CreatedKeepsRoots(nodes: seq<Node>, roots: Roots, kw: Kind, name: string, owner: string, parent: Option<nat>,
                          detached: bool, after: seq<Node>, roots': Roots)
    requires Forest(nodes) && RootsOk(nodes, roots) && (parent.Some? ==> parent.value < |nodes|)
    requires after == Created(nodes, kw, name, owner, parent, detached) && Forest(after)
    requires !detached && parent.None? ==> owner in roots
    requires roots' == if !detached && parent.None? then roots[owner := roots[owner] + [|nodes|]] else roots
    ensures RootsOk(after, roots')
    ensures forall n: nat :: n < |nodes| ==> Live(after, roots', n) == Live(nodes, roots, n)
    ensures Live(after, roots', |nodes|) <==> !detached && (parent.Some? ==> Live(nodes, roots, parent.value))
  {
    if !detached && parent.None? { NoDupRoot(nodes, roots, owner); }
    forall n: nat
      ensures n < |nodes| ==> Live(after, roots', n) == Live(nodes, roots, n)
      ensures n == |nodes| ==> (Live(after, roots', n) <==> !detached && (parent.Some? ==> Live(nodes, roots, parent.value)))
    {
      CreatedLive(nodes, roots, kw, name, owner, parent, detached, after, roots', n);
    }
  }

  lemma CreatedInArena(nodes: seq<Node>, templates: seq<nat>, kw: Kind, name: string, owner: string, parent: Option<nat>,
                       detached: bool)
    requires InArena(nodes, templates) && (parent.Some? ==> parent.value < |nodes|)
    ensures InArena(Created(nodes, kw, name, owner, parent, detached), templates)
  {
  }

  lemma NewListed(nodes: seq<Node>, roots: Roots, kw: Kind, name: string, owner: string, parent: Option<nat>,
                  detached: bool, after: seq<Node>, roots': Roots)
    requires Forest(nodes) && RootsOk(nodes, roots) && (parent.Some? ==> parent.value < |nodes|)
    requires after == Created(nodes, kw, name, owner, parent, detached)
    requires !detached && parent.None? ==> owner in roots
    requires roots' == if !detached && parent.None? then roots[owner := roots[owner] + [|nodes|]] else roots
    ensures Listed(after, roots', |nodes|) <==> !detached
  {
    var id := |nodes|;
    if detached {
      if parent.Some? {
        forall c | c in nodes[parent.value].children ensures c != id { ChildLink(nodes, parent.value, c); }
      } else if owner in roots {
        assert forall k :: 0 <= k < |roots[owner]| ==> roots[owner][k] < |nodes|;
      }
    }
  }

  // ---------------------------------------------------------------- removal

  /** Drop `target` from the list it is in. */
  function Removed(nodes: seq<Node>, target: nat): seq<Node>
    requires target < |nodes| && Forest(nodes)
  {
    match nodes[target].parent
    case None => nodes
    case Some(p) => nodes[p := nodes[p].(children := Without(nodes[p].children, target))]
  }

  function RemovedRoots(nodes: seq<Node>, roots: Roots, target: nat): Roots
    requires target < |nodes|
  {
    var m := nodes[target].owner;
    if nodes[target].parent.None? && m in roots then roots[m := Without(roots[m], target)] else roots
  }

  lemma RemovedKeepsForest(nodes: seq<Node>, target: nat)
    requires Forest(nodes) && target < |nodes|
    ensures Forest(Removed(nodes, target)) && (ConfigLess(nodes) ==> ConfigLess(Removed(nodes, target)))
  {
    var after := Removed(nodes, target);
    forall p, k | 0 <= p < |after| && 0 <= k < |after[p].children|
      ensures p < after[p].children[k] < |after| && after[after[p].children[k]].parent == Some(p)
    {
      assert after[p].children[k] in nodes[p].children;
      ChildLink(nodes, p, after[p].children[k]);
    }
  }

  lemma RemovedKeepsRoots(nodes: seq<Node>, roots: Roots, target: nat)
    requires Forest(nodes) && RootsOk(nodes, roots) && target < |nodes|
    ensures RootsOk(Removed(nodes, target), RemovedRoots(nodes, roots, target))
  {
    var roots' := RemovedRoots(nodes, roots, target);
    forall m, k | m in roots' && 0 <= k < |roots'[m]|
      ensures roots'[m][k] < |nodes| && nodes[roots'[m][k]].parent == None && nodes[roots'[m][k]].owner == m
    {
      var r := roots'[m][k];
      assert r in roots[m];
      var j :| 0 <= j < |roots[m]| && roots[m][j] == r;
    }
  }

  /** Removing a node ends the life of exactly its subtree. */
  lemma {:induction false} RemovedLive(nodes: seq<Node>, roots: Roots, target: nat, n: nat)
    requires Forest(nodes) && RootsOk(nodes, roots) && target < |nodes| && Forest(Removed(nodes, target))
    ensures Live(Removed(nodes, target), RemovedRoots(nodes, roots, target), n)
      <==> Live(nodes, roots, n) && !Below(nodes, target, n)
    decreases n
  {
    var after, roots' := Removed(nodes, target), RemovedRoots(nodes, roots, target);
    if n < |nodes| {
      assert after[n].parent == nodes[n].parent && after[n].owner == nodes[n].owner;
      if nodes[n].parent.Some? { RemovedLive(nodes, roots, target, nodes[n].parent.value); }
      assert Listed(after, roots', n) <==> Listed(nodes, roots, n) && n != target;
    }
  }

  // ---------------------------------------------------------------- config inheritance

  /** Below `top` through child lists and nodes that have a config property. */
  predicate Inherits(nodes: seq<Node>, top: nat, n: nat)
    requires Forest(nodes)
    decreases n
  {
    && n < |nodes| && nodes[n].config.Some? && nodes[n].parent.Some?
    && n in nodes[nodes[n].parent.value].children
    && (nodes[n].parent.value == top || Inherits(nodes, top, nodes[n].parent.value))
  }

  /** Nothing but the config of nodes has changed. */
  predicate SameButConfig(nodes: seq<Node>, after: seq<Node>) {
    |after| == |nodes| && forall i :: 0 <= i < |nodes| ==> after[i] == nodes[i].(config := after[i].config)
  }

  lemma SameConfig(nodes: seq<Node>)
    ensures SameButConfig(nodes, nodes)
  {
  }

  lemma ConfigSet(nodes: seq<Node>, c: nat, config: Option<bool>)
    requires c < |nodes|
    ensures SameButConfig(nodes, nodes[c := nodes[c].(config := config)])
  {
  }

  lemma ConfigOnly(a: seq<Node>, b: seq<Node>, c: seq<Node>)
    requires SameButConfig(a, b) && SameButConfig(b, c)
    ensures SameButConfig(a, c)
  {
  }

  /** A new node's place: behind its siblings, in its parent's list. */
  predicate Attached(nodes: seq<Node>, after: seq<Node>, place: Option<nat>) {
    && |after| == |nodes| + 1
    && forall n :: 0 <= n < |nodes| ==>
         after[n] == if place == Some(n) then nodes[n].(children := nodes[n].children + [|nodes|]) else nodes[n]
  }

  lemma CreatedAttaches(nodes: seq<Node>, kw: Kind, name: string, owner: string, parent: Option<nat>, detached: bool)
    requires parent.Some? ==> parent.value < |nodes|
    ensures Attached(nodes, Created(nodes, kw, name, owner, parent, detached), if detached then None else parent)
  {
  }

  /** A node taken out of its parent's list. */
  predicate Detached(nodes: seq<Node>, after: seq<Node>, target: nat)
    requires target < |nodes|
  {
    && |after| == |nodes|
    && forall n :: 0 <= n < |nodes| ==>
         after[n] == if nodes[target].parent == Some(n) then nodes[n].(children := Without(nodes[n].children, target)) else nodes[n]
  }

  /** Links, keys and the presence of a config property are as before. */
  predicate SameShape(nodes: seq<Node>, after: seq<Node>) {
    && SameLinks(nodes, after)
    && forall i :: 0 <= i < |nodes| ==> after[i].keys == nodes[i].keys && after[i].config.Some? == nodes[i].config.Some?
  }

  lemma SameShapeValid(nodes: seq<Node>, after: seq<Node>, roots: Roots, templates: seq<nat>)
    requires Forest(nodes) && RootsOk(nodes, roots) && ConfigLess(nodes) && InArena(nodes, templates)
    requires SameShape(nodes, after)
    ensures Forest(after) && RootsOk(after, roots) && ConfigLess(after) && InArena(after, templates)
  {
  }

  /** The first of `ids` with this local name. */
  function ByLocal(nodes: seq<Node>, ids: seq<nat>, local: string): (r: Option<nat>)
    requires forall i :: 0 <= i < |ids| ==> ids[i] < |nodes|
    ensures r.Some? ==> r.value in ids && r.value < |nodes| && LocalName(nodes[r.value].name) == local
    ensures r.None? ==> forall i :: 0 <= i < |ids| ==> LocalName(nodes[ids[i]].name) != local
  {
    if ids == [] then None
    else if LocalName(nodes[ids[0]].name) == local then Some(ids[0])
    else
      assert forall i :: 1 <= i < |ids| ==> ids[i] == ids[1..][i - 1];
      ByLocal(nodes, ids[1..], local)
  }

  lemma FromFirstStep(nodes: seq<Node>, top: nat, i: nat, n: nat)
    requires Forest(nodes) && top < |nodes| && i < |nodes[top].children|
    ensures FromFirst(nodes, top, i + 1, n) <==> FromFirst(nodes, top, i, n) || UnderChild(nodes, nodes[top].children[i], n)
  {
  }

  /** Configs as propagating from the first `i` children of `top` leaves them. */
  predicate PropagatedFirst(nodes: seq<Node>, after: seq<Node>, top: nat, i: nat)
    requires Forest(nodes) && top < |nodes| && i <= |nodes[top].children| && |after| == |nodes|
  {
    forall n :: 0 <= n < |nodes| ==>
      after[n].config == if FromFirst(nodes, top, i, n) then Some(false) else nodes[n].config
  }

  /** Configs as propagating from `top` leaves them. */
  predicate Propagated(nodes: seq<Node>, after: seq<Node>, top: nat)
    requires Forest(nodes) && |after| == |nodes|
  {
    forall n :: 0 <= n < |nodes| ==> after[n].config == if Inherits(nodes, top, n) then Some(false) else nodes[n].config
  }

  lemma PropagateStep(nodes: seq<Node>, before: seq<Node>, mid: seq<Node>, after: seq<Node>, top: nat, i: nat, c: nat)
    requires Forest(nodes) && top < |nodes| && i < |nodes[top].children| && c == nodes[top].children[i] && c < |nodes|
    requires SameShape(nodes, before) && PropagatedFirst(nodes, before, top, i)
    requires if before[c].config.Some? then mid == before[c := before[c].(config := Some(false))] else mid == before
    requires Forest(mid) && SameShape(mid, after)
    requires if before[c].config.Some? then Propagated(mid, after, c) else after == before
    ensures SameShape(nodes, after) && PropagatedFirst(nodes, after, top, i + 1)
  {
    hide Inherits, FromFirst;
    forall n | 0 <= n < |nodes|
      ensures after[n].config == if FromFirst(nodes, top, i + 1, n) then Some(false) else nodes[n].config
    {
      FromFirstStep(nodes, top, i, n);
      SameShapeInherits(nodes, mid, c, n);
    }
  }

  lemma PropagateDone(nodes: seq<Node>, after: seq<Node>, top: nat)
    requires Forest(nodes) && top < |nodes| && |after| == |nodes| && PropagatedFirst(nodes, after, top, |nodes[top].children|)
    ensures Propagated(nodes, after, top)
  {
    forall n | 0 <= n < |nodes|
      ensures after[n].config == if Inherits(nodes, top, n) then Some(false) else nodes[n].config
    {
      InheritsByChild(nodes, top, n);
    }
  }

  lemma {:induction false} SameShapeInherits(nodes: seq<Node>, after: seq<Node>, top: nat, n: nat)
    requires Forest(nodes) && SameShape(nodes, after) && Forest(after)
    ensures Inherits(after, top, n) == Inherits(nodes, top, n)
    decreases n
  {
    if n < |nodes| && nodes[n].parent.Some? { SameShapeInherits(nodes, after, top, nodes[n].parent.value); }
  }

  /** Inheriting from `top` is inheriting from, or being, one of its children that have a config property. */
  lemma {:induction false} InheritsByChild(nodes: seq<Node>, top: nat, n: nat)
    requires Forest(nodes) && top < |nodes|
    ensures Inherits(nodes, top, n) <==>
      exists k :: 0 <= k < |nodes[top].children| && UnderChild(nodes, nodes[top].children[k], n)
    decreases n
  {
    if Inherits(nodes, top, n) {
      var p := nodes[n].parent.value;
      if p == top {
        var k :| 0 <= k < |nodes[top].children| && nodes[top].children[k] == n;
        assert UnderChild(nodes, nodes[top].children[k], n);
      } else {
        InheritsByChild(nodes, top, p);
        var k :| 0 <= k < |nodes[top].children| && UnderChild(nodes, nodes[top].children[k], p);
        assert UnderChild(nodes, nodes[top].children[k], n);
      }
    }
    if k :| 0 <= k < |nodes[top].children| && UnderChild(nodes, nodes[top].children[k], n) {
      ChildLink(nodes, top, nodes[top].children[k]);
      ChildInherits(nodes, top, nodes[top].children[k], n);
    }
  }

  predicate UnderChild(nodes: seq<Node>, c: nat, n: nat)
    requires Forest(nodes)
  {
    c < |nodes| && nodes[c].config.Some? && (n == c || Inherits(nodes, c, n))
  }

  lemma {:induction false} ChildInherits(nodes: seq<Node>, top: nat, c: nat, n: nat)
    requires Forest(nodes) && top < |nodes| && c in nodes[top].children && UnderChild(nodes, c, n)
    requires c < |nodes| && nodes[c].parent == Some(top)
    ensures Inherits(nodes, top, n)
    decreases n
  {
    if n != c {
      var p := nodes[n].parent.value;
      ChildInherits(nodes, top, c, p);
    }
  }

  /** `n` inherits from one of the first `i` children of `top`. */
  predicate FromFirst(nodes: seq<Node>, top: nat, i: nat, n: nat)
    requires Forest(nodes) && top < |nodes| && i <= |nodes[top].children|
  {
    exists k :: 0 <= k < i && UnderChild(nodes, nodes[top].children[k], n)
  }

  /** Every live node below the target that has a config property inherits from it. */
  lemma {:induction false} LiveBelowInherits(nodes: seq<Node>, roots: Roots, target: nat, n: nat)
    requires Forest(nodes) && ConfigLess(nodes) && Live(nodes, roots, n) && Below(nodes, target, n) && n != target
    requires nodes[n].config.Some?
    ensures Inherits(nodes, target, n)
    decreases n
  {
    var p := nodes[n].parent.value;
    if p != target { LiveBelowInherits(nodes, roots, target, p); }
  }

  // ---------------------------------------------------------------- the SID index

  /** `top`, or below it through child lists. */
  predicate Under(nodes: seq<Node>, top: nat, n: nat)
    requires Forest(nodes)
    decreases n
  {
    n < |nodes| && (n == top
      || (nodes[n].parent.Some? && n in nodes[nodes[n].parent.value].children && Under(nodes, top, nodes[n].parent.value)))
  }

  lemma {:induction false} UnderByChild(nodes: seq<Node>, top: nat, c: nat, n: nat)
    requires Forest(nodes) && top < |nodes| && c in nodes[top].children && Under(nodes, c, n)
    ensures Under(nodes, top, n)
    decreases n
  {
    if n == c { ChildLink(nodes, top, c); } else { UnderByChild(nodes, top, c, nodes[n].parent.value); }
  }

  lemma {:induction false} UnderSomeChild(nodes: seq<Node>, top: nat, n: nat)
    requires Forest(nodes) && top < |nodes| && Under(nodes, top, n) && n != top
    ensures exists k :: 0 <= k < |nodes[top].children| && Under(nodes, nodes[top].children[k], n)
    decreases n
  {
    var p := nodes[n].parent.value;
    if p == top {
      var k :| 0 <= k < |nodes[top].children| && nodes[top].children[k] == n;
      assert Under(nodes, nodes[top].children[k], n);
    } else {
      UnderSomeChild(nodes, top, p);
      var k :| 0 <= k < |nodes[top].children| && Under(nodes, nodes[top].children[k], p);
      assert Under(nodes, nodes[top].children[k], n);
    }
  }

  /** Live nodes are those under some root. */
  lemma {:induction false} LiveIsUnderRoot(nodes: seq<Node>, roots: Roots, n: nat)
    requires Forest(nodes) && RootsOk(nodes, roots)
    ensures Live(nodes, roots, n) <==> exists m, k :: m in roots && 0 <= k < |roots[m]| && Under(nodes, roots[m][k], n)
    decreases n
  {
    if Live(nodes, roots, n) {
      if nodes[n].parent.None? {
        var m := nodes[n].owner;
        var k :| 0 <= k < |roots[m]| && roots[m][k] == n;
        assert Under(nodes, roots[m][k], n);
      } else {
        var p := nodes[n].parent.value;
        LiveIsUnderRoot(nodes, roots, p);
        var m, k :| m in roots && 0 <= k < |roots[m]| && Under(nodes, roots[m][k], p);
        assert Under(nodes, roots[m][k], n);
      }
    }
    if m, k :| m in roots && 0 <= k < |roots[m]| && Under(nodes, roots[m][k], n) {
      if n == roots[m][k] {
        assert Listed(nodes, roots, n);
      } else {
        var p := nodes[n].parent.value;
        LiveIsUnderRoot(nodes, roots, p);
      }
    }
  }

  /** `index` holds the SIDs of the nodes in `seen`, each pointing to a node of `seen` that carries it. */
  ghost predicate Indexes(nodes: seq<Node>, seen: iset<nat>, index: map<int, nat>) {
    && (forall s :: s in index ==> index[s] in seen && index[s] < |nodes| && nodes[index[s]].sid == Some(s))
    && (forall n :: n in seen && n < |nodes| && nodes[n].sid.Some? ==> nodes[n].sid.value in index)
  }

  /** In the data tree, or in an rc:yang-data template. */
  predicate Reached(nodes: seq<Node>, roots: Roots, templates: seq<nat>, n: nat)
    requires Forest(nodes)
  {
    Live(nodes, roots, n) || exists k :: 0 <= k < |templates| && Under(nodes, templates[k], n)
  }

  /** No two nodes that are reached carry the same SID. */
  predicate DistinctSids(nodes: seq<Node>, roots: Roots, templates: seq<nat>)
    requires Forest(nodes)
  {
    forall i, j ::
      0 <= i < j < |nodes| && Reached(nodes, roots, templates, i) && Reached(nodes, roots, templates, j) ==>
      nodes[i].sid.Some? ==> nodes[i].sid != nodes[j].sid
  }

  ghost function UnderSet(nodes: seq<Node>, top: nat): iset<nat>
    requires Forest(nodes)
  {
    iset n: nat | Under(nodes, top, n)
  }

  ghost function ReachedSet(nodes: seq<Node>, roots: Roots, templates: seq<nat>): iset<nat>
    requires Forest(nodes)
  {
    iset n: nat | Reached(nodes, roots, templates, n)
  }

  lemma IndexesMore(nodes: seq<Node>, a: iset<nat>, b: iset<nat>, x: map<int, nat>, y: map<int, nat>)
    requires Indexes(nodes, a, x) && Indexes(nodes, b, y)
    ensures Indexes(nodes, a + b, x + y)
  {
  }

  // ---------------------------------------------------------------- the builder

  class Builder {
    var nodes: seq<Node>
    var moduleRoot: Roots
    var templates: seq<nat>

    /** What every operation keeps. */
    ghost predicate Valid()
      reads this
    {
      Forest(nodes) && RootsOk(nodes, moduleRoot) && ConfigLess(nodes) && InArena(nodes, templates)
    }

    constructor ()
      ensures Valid() && nodes == [] && moduleRoot == map[] && templates == []
    {
      nodes, moduleRoot, templates := [], map[], [];
    }

    /** Register a module, with no nodes yet. */
    method AddModule(name: string)
      requires Valid() && name !in moduleRoot
      modifies `moduleRoot
      ensures Valid() && moduleRoot == old(moduleRoot)[name := []]
    {
      moduleRoot := moduleRoot[name := []];
    }

    /** Create a node and, unless it is detached, attach it to its parent or its module. */
    method NewNode(kw: Kind, name: string, owner: string, parent: Option<nat>, detached: bool) returns (id: nat)
      requires Valid() && (parent.Some? ==> parent.value < |nodes|) && (!detached && parent.None? ==> owner in moduleRoot)
      modifies `nodes, `moduleRoot
      ensures Valid() && id == |old(nodes)| && nodes == Created(old(nodes), kw, name, owner, parent, detached)
      ensures forall n: nat :: n < id ==> Live(nodes, moduleRoot, n) == old(Live(nodes, moduleRoot, n))
      ensures Live(nodes, moduleRoot, id) <==> !detached && (parent.Some? ==> old(Live(nodes, moduleRoot, parent.value)))
      ensures forall p: nat :: parent == Some(p) && old(nodes)[p].config == None ==> nodes[id].config == None
      ensures nodes[id] == Node(kw, name, owner, parent, [], nodes[id].config, false, None, [], None)
      ensures nodes[id].config ==
        if kw == Rpc || kw == Action || kw == Notification then None
        else if parent.Some? then old(nodes)[parent.value].config else Some(true)
      ensures Attached(old(nodes), nodes, if detached then None else parent)
      ensures moduleRoot ==
        if detached || parent.Some? then old(moduleRoot) else old(moduleRoot)[owner := old(moduleRoot)[owner] + [id]]
    {
      hide Attached, InArena, ConfigLess, Live;
      ghost var nodes0, roots0 := nodes, moduleRoot;
      id := |nodes|;
      var config := Some(true);
      if kw == Rpc || kw == Action || kw == Notification {
        config := None;
      } else if parent.Some? {
        config := nodes[parent.value].config;
      }
      nodes := nodes + [Node(kw, name, owner, parent, [], config, false, None, [], None)];
      if !detached {
        if parent.Some? {
          var p := parent.value;
          nodes := nodes[p := nodes[p].(children := nodes[p].children + [id])];
        } else {
          moduleRoot := moduleRoot[owner := moduleRoot[owner] + [id]];
        }
      }
      CreatedKeepsForest(nodes0, kw, name, owner, parent, detached);
      CreatedInArena(nodes0, templates, kw, name, owner, parent, detached);
      CreatedAttaches(nodes0, kw, name, owner, parent, detached);
      CreatedKeepsRoots(nodes0, roots0, kw, name, owner, parent, detached, nodes, moduleRoot);
    }

    /** A config statement on a node: ignored where config does not apply. */
    method OverrideConfig(n: nat, value: bool)
      requires Valid() && n < |nodes|
      modifies `nodes
      ensures Valid() && SameShape(old(nodes), nodes)
      ensures nodes == old(nodes)[n := old(nodes)[n].(config := if old(nodes)[n].config.Some? then Some(value) else None)]
    {
      if nodes[n].config.Some? { nodes := nodes[n := nodes[n].(config := Some(value))]; }
      SameLinksForest(old(nodes), nodes);
    }

    /** Deviate not-supported: take a node out of its parent's or module's list. */
    method RemoveNode(target: nat)
      requires Valid() && target < |nodes|
      modifies `nodes, `moduleRoot
      ensures Valid() && nodes == Removed(old(nodes), target)
      ensures forall n: nat :: Live(nodes, moduleRoot, n) <==> old(Live(nodes, moduleRoot, n) && !Below(nodes, target, n))
      ensures Detached(old(nodes), nodes, target)
      ensures moduleRoot ==
        var m := old(nodes)[target].owner;
        if old(nodes)[target].parent.Some? || m !in old(moduleRoot) then old(moduleRoot)
        else old(moduleRoot)[m := Without(old(moduleRoot)[m], target)]
    {
      ghost var nodes0, roots0 := nodes, moduleRoot;
      RemovedKeepsForest(nodes, target);
      RemovedKeepsRoots(nodes, moduleRoot, target);
      if nodes[target].parent.Some? {
        var p := nodes[target].parent.value;
        nodes := nodes[p := nodes[p].(children := Without(nodes[p].children, target))];
      } else {
        var owner := nodes[target].owner;
        if owner in moduleRoot { moduleRoot := moduleRoot[owner := Without(moduleRoot[owner], target)]; }
      }
      forall n: nat
        ensures Live(nodes, moduleRoot, n) <==> Live(nodes0, roots0, n) && !Below(nodes0, target, n)
      {
        RemovedLive(nodes0, roots0, target, n);
      }
    }

    /** Set config false on everything below a node, as far as config applies. */
    method PropagateConfigFalse(node: nat)
      requires Valid() && node < |nodes|
      modifies `nodes
      ensures Valid() && SameShape(old(nodes), nodes) && Propagated(old(nodes), nodes, node) && SameButConfig(old(nodes), nodes)
      decreases |nodes| - node
    {
      hide SameButConfig;
      ghost var nodes0 := nodes;
      SameConfig(nodes);
      for i := 0 to |nodes[node].children|
        invariant Valid() && SameShape(nodes0, nodes) && PropagatedFirst(nodes0, nodes, node, i) && SameButConfig(nodes0, nodes)
      {
        var c := nodes[node].children[i];
        ChildLink(nodes, node, c);
        ghost var before := nodes;
        if nodes[c].config.Some? {
          nodes := nodes[c := nodes[c].(config := Some(false))];
          ConfigSet(before, c, Some(false));
          ConfigOnly(nodes0, before, nodes);
          SameShapeValid(before, nodes, moduleRoot, templates);
        }
        ghost var mid := nodes;
        if nodes[c].config.Some? {
          PropagateConfigFalse(c);
          ConfigOnly(nodes0, mid, nodes);
        }
        PropagateStep(nodes0, before, mid, nodes, node, i, c);
      }
      PropagateDone(nodes0, nodes, node);
    }

    /**
     * Deviate replace config: set the target's config, and on false everything below it, so that afterwards every
     * live node below the target that has a config property is config false.
     */
    method ReplaceConfig(target: nat, value: bool)
      requires Valid() && target < |nodes|
      modifies `nodes
      ensures Valid() && SameShape(old(nodes), nodes)
      ensures SameButConfig(old(nodes), nodes) && (old(nodes)[target].config == None ==> nodes == old(nodes))
      ensures old(nodes)[target].config.Some? ==> nodes[target].config == Some(value)
      ensures old(nodes)[target].config.Some? && !value ==> forall n: nat ::
        Live(nodes, moduleRoot, n) && Below(nodes, target, n) && nodes[n].config.Some? ==> nodes[n].config == Some(false)
      ensures forall n: nat :: n < |nodes| && (value || !Below(old(nodes), target, n)) && n != target ==>
        nodes[n].config == old(nodes)[n].config
    {
      hide SameButConfig;
      ghost var nodes0 := nodes;
      SameConfig(nodes);
      if nodes[target].config.Some? {
        nodes := nodes[target := nodes[target].(config := Some(value))];
        ConfigSet(nodes0, target, Some(value));
        SameShapeValid(nodes0, nodes, moduleRoot, templates);
        if !value {
          ghost var mid := nodes;
          PropagateConfigFalse(target);
          ReplacedBelow(nodes0, mid, nodes, moduleRoot, target);
          ConfigOnly(nodes0, mid, nodes);
        }
      }
    }

    /** Attach a SID. */
    method SetSid(target: nat, sid: i64)
      requires Valid() && target < |nodes|
      modifies `nodes
      ensures Valid() && SameShape(old(nodes), nodes) && nodes == old(nodes)[target := old(nodes)[target].(sid := Some(sid))]
    {
      nodes := nodes[target := nodes[target].(sid := Some(sid))];
      SameLinksForest(old(nodes), nodes);
    }

    method SetType(target: nat, ty: Type)
      requires Valid() && target < |nodes|
      modifies `nodes
      ensures Valid() && SameShape(old(nodes), nodes) && nodes == old(nodes)[target := old(nodes)[target].(ty := Some(ty))]
    {
      nodes := nodes[target := nodes[target].(ty := Some(ty))];
      SameLinksForest(old(nodes), nodes);
    }

    method SetMandatory(target: nat, value: bool)
      requires Valid() && target < |nodes|
      modifies `nodes
      ensures Valid() && SameShape(old(nodes), nodes)
      ensures nodes == old(nodes)[target := old(nodes)[target].(mandatory := value)]
    {
      nodes := nodes[target := nodes[target].(mandatory := value)];
      SameLinksForest(old(nodes), nodes);
    }

    /** A key statement names a direct child of the list; any other name is an error and changes nothing. */
    method AddKey(list: nat, local: string) returns (found: bool)
      requires Valid() && list < |nodes|
      modifies `nodes
      ensures Valid() && SameLinks(old(nodes), nodes)
      ensures found <==> old(ByLocal(nodes, nodes[list].children, local)).Some?
      ensures nodes == if found then
        old(nodes)[list := old(nodes)[list].(keys := old(nodes[list].keys + [ByLocal(nodes, nodes[list].children, local).value]))]
        else old(nodes)
    {
      var key := ByLocal(nodes, nodes[list].children, local);
      if key.None? { return false; }
      nodes := nodes[list := nodes[list].(keys := nodes[list].keys + [key.value])];
      SameLinksForest(old(nodes), nodes);
      return true;
    }

    /** Keep the root of an rc:yang-data template, which no module lists. */
    method AddTemplate(root: nat)
      requires Valid() && root < |nodes|
      modifies `templates
      ensures Valid() && templates == old(templates) + [root]
    {
      templates := templates + [root];
    }

    /** Enter the SIDs of a node and everything under it. */
    method IndexSids(node: nat, index: map<int, nat>) returns (out: map<int, nat>, ghost own: map<int, nat>)
      requires Valid() && node < |nodes|
      ensures out == index + own && Indexes(nodes, UnderSet(nodes, node), own)
      decreases |nodes| - node
    {
      hide Indexes;
      out, own := index, map[];
      if nodes[node].sid.Some? {
        out := out[nodes[node].sid.value := node];
        own := map[nodes[node].sid.value := node];
      }
      SeenNone(nodes, node, own);
      for i := 0 to |nodes[node].children|
        invariant out == index + own && Indexes(nodes, SeenFirst(nodes, node, i), own)
      {
        var c := nodes[node].children[i];
        ChildLink(nodes, node, c);
        ghost var sub;
        out, sub := IndexSids(c, out);
        SeenMore(nodes, node, i, own, sub);
        assert index + own + sub == index + (own + sub);
        own := own + sub;
      }
      SeenIsUnder(nodes, node);
    }

    /** Enter the SIDs under the roots of a list. */
    method IndexRoots(roots: seq<nat>, index: map<int, nat>, ghost seen: iset<nat>) returns (out: map<int, nat>, ghost more: iset<nat>)
      requires Valid() && Indexes(nodes, seen, index) && forall i :: 0 <= i < |roots| ==> roots[i] < |nodes|
      ensures Indexes(nodes, more, out)
      ensures forall n: nat :: n in more <==> n in seen || exists k :: 0 <= k < |roots| && Under(nodes, roots[k], n)
    {
      hide Indexes, Forest, RootsOk, ConfigLess;
      out, more := index, seen;
      for i := 0 to |roots|
        invariant Indexes(nodes, more, out)
        invariant forall n: nat :: n in more <==> n in seen || exists k :: 0 <= k < i && Under(nodes, roots[k], n)
      {
        ghost var out0, sub := out, map[];
        out, sub := IndexSids(roots[i], out);
        IndexesMore(nodes, more, UnderSet(nodes, roots[i]), out0, sub);
        more := more + UnderSet(nodes, roots[i]);
      }
    }

    /** The index over all modules and templates: with distinct SIDs, exactly the nodes reached that carry one. */
    method IndexAll() returns (index: map<int, nat>)
      requires Valid()
      ensures Indexes(nodes, ReachedSet(nodes, moduleRoot, templates), index)
      ensures DistinctSids(nodes, moduleRoot, templates) ==> forall s, n: nat ::
        s in index && index[s] == n <==> Reached(nodes, moduleRoot, templates, n) && nodes[n].sid == Some(s)
    {
      index := map[];
      ghost var seen := iset{};
      var todo := moduleRoot.Keys;
      while todo != {}
        invariant Indexes(nodes, seen, index) && todo <= moduleRoot.Keys
        invariant forall n: nat :: n in seen <==>
          exists m, k :: m in moduleRoot && m !in todo && 0 <= k < |moduleRoot[m]| && Under(nodes, moduleRoot[m][k], n)
        decreases |todo|
      {
        var m :| m in todo;
        index, seen := IndexRoots(moduleRoot[m], index, seen);
        todo := todo - {m};
      }
      forall n: nat ensures n in seen <==> Live(nodes, moduleRoot, n) {
        LiveIsUnderRoot(nodes, moduleRoot, n);
      }
      index, seen := IndexRoots(templates, index, seen);
      assert seen == ReachedSet(nodes, moduleRoot, templates);
    }
  }

  lemma NoDupRoot(nodes: seq<Node>, roots: Roots, m: string)
    requires RootsOk(nodes, roots) && m in roots
    ensures NoDup(roots[m] + [|nodes|])
  {
    assert forall k :: 0 <= k < |roots[m]| ==> roots[m][k] < |nodes|;
    NoDupSnoc(roots[m], |nodes|);
  }

  lemma ReplacedBelow(before: seq<Node>, mid: seq<Node>, after: seq<Node>, roots: Roots, target: nat)
    requires Forest(before) && Forest(mid) && Forest(after) && ConfigLess(after) && target < |before|
    requires SameLinks(before, mid) && SameShape(mid, after) && Propagated(mid, after, target)
    requires mid[target].config == Some(false)
    ensures after[target].config == Some(false)
    ensures forall n: nat :: Live(after, roots, n) && Below(after, target, n) && after[n].config.Some? ==>
      after[n].config == Some(false)
    ensures forall n: nat :: n < |after| && !Below(before, target, n) ==> after[n].config == mid[n].config
  {
    NotOwnAncestor(mid, target, target);
    forall n: nat | Live(after, roots, n) && Below(after, target, n) && after[n].config.Some?
      ensures after[n].config == Some(false)
    {
      if n != target {
        LiveBelowInherits(after, roots, target, n);
        SameShapeInherits(mid, after, target, n);
      }
    }
    forall n: nat | n < |after| && Inherits(mid, target, n) ensures Below(before, target, n) {
      InheritsIsBelow(mid, before, target, n);
    }
  }

  lemma {:induction false} NotOwnAncestor(nodes: seq<Node>, top: nat, n: nat)
    requires Forest(nodes) && n <= top
    ensures !Inherits(nodes, top, n)
    decreases n
  {
    if Inherits(nodes, top, n) { NotOwnAncestor(nodes, top, nodes[n].parent.value); }
  }

  lemma {:induction false} InheritsIsBelow(nodes: seq<Node>, before: seq<Node>, top: nat, n: nat)
    requires Forest(nodes) && Forest(before) && SameLinks(before, nodes) && top < |nodes| && Inherits(nodes, top, n)
    ensures Below(before, top, n)
    decreases n
  {
    var p := nodes[n].parent.value;
    if p != top { InheritsIsBelow(nodes, before, top, p); }
  }

  /** `top` and everything under its first `i` children. */
  ghost function SeenFirst(nodes: seq<Node>, top: nat, i: nat): iset<nat>
    requires Forest(nodes) && top < |nodes| && i <= |nodes[top].children|
  {
    iset n: nat | TopOrFirst(nodes, top, i, n)
  }

  predicate TopOrFirst(nodes: seq<Node>, top: nat, i: nat, n: nat)
    requires Forest(nodes) && top < |nodes| && i <= |nodes[top].children|
  {
    n == top || exists k :: 0 <= k < i && Under(nodes, nodes[top].children[k], n)
  }

  lemma SeenNone(nodes: seq<Node>, top: nat, own: map<int, nat>)
    requires Forest(nodes) && top < |nodes|
    requires own == if nodes[top].sid.Some? then map[nodes[top].sid.value := top] else map[]
    ensures Indexes(nodes, SeenFirst(nodes, top, 0), own)
  {
  }

  lemma SeenMore(nodes: seq<Node>, top: nat, i: nat, own: map<int, nat>, sub: map<int, nat>)
    requires Forest(nodes) && top < |nodes| && i < |nodes[top].children|
    requires Indexes(nodes, SeenFirst(nodes, top, i), own) && Indexes(nodes, UnderSet(nodes, nodes[top].children[i]), sub)
    ensures Indexes(nodes, SeenFirst(nodes, top, i + 1), own + sub)
  {
    var a, b := SeenFirst(nodes, top, i), UnderSet(nodes, nodes[top].children[i]);
    IndexesMore(nodes, a, b, own, sub);
    assert SeenFirst(nodes, top, i + 1) == a + b;
  }

  lemma SeenIsUnder(nodes: seq<Node>, top: nat)
    requires Forest(nodes) && top < |nodes|
    ensures SeenFirst(nodes, top, |nodes[top].children|) == UnderSet(nodes, top)
  {
    var seen := SeenFirst(nodes, top, |nodes[top].children|);
    forall n: nat ensures n in seen <==> Under(nodes, top, n) {
      if k :| 0 <= k < |nodes[top].children| && Under(nodes, nodes[top].children[k], n) {
        UnderByChild(nodes, top, nodes[top].children[k], n);
      }
      if Under(nodes, top, n) && n != top { UnderSomeChild(nodes, top, n); }
    }
  }
}
