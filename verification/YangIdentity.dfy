// The YANG identity graph (RFC 7950 sections 7.18.2 and 9.10.2): closures over derivation edges, computed downward by
// the schema builder and upward by the catalog check, and the value sets of identityref types. Cycles are allowed.

module YangIdentity {
  import opened Bytes

  // ---------------------------------------------------------------- reachability

  /** Adjacency lists: the successors of each node. */
  type Graph = seq<seq<nat>>

  predicate WellFormed(g: Graph) {
    forall i, k :: 0 <= i < |g| && 0 <= k < |g[i]| ==> g[i][k] < |g|
  }

  predicate IsPath(g: Graph, p: seq<nat>) {
    p != [] && forall k :: 0 <= k < |p| - 1 ==> p[k] < |g| && p[k + 1] in g[p[k]]
  }

  /** A path of zero or more edges. */
  ghost predicate Reaches(g: Graph, a: nat, b: nat) {
    exists p :: IsPath(g, p) && p[0] == a && p[|p| - 1] == b
  }

  /** Reachable from some seed. */
  ghost predicate From(g: Graph, seeds: seq<nat>, x: nat) {
    exists a :: a in seeds && Reaches(g, a, x)
  }

  predicate Closed(g: Graph, s: set<nat>) {
    forall x, y :: x in s && x < |g| && y in g[x] ==> y in s
  }

  lemma ReachesSelf(g: Graph, a: nat)
    ensures Reaches(g, a, a)
  {
    assert IsPath(g, [a]) && [a][0] == a && [a][|[a]| - 1] == a;
  }

  lemma ReachesStep(g: Graph, a: nat, x: nat, y: nat)
    requires Reaches(g, a, x) && x < |g| && y in g[x]
    ensures Reaches(g, a, y)
  {
    var p :| IsPath(g, p) && p[0] == a && p[|p| - 1] == x;
    var q := p + [y];
    forall k | 0 <= k < |q| - 1 ensures q[k] < |g| && q[k + 1] in g[q[k]] {
      if k < |p| - 1 { assert q[k] == p[k] && q[k + 1] == p[k + 1]; }
    }
    assert IsPath(g, q) && q[0] == a && q[|q| - 1] == y;
  }

  /** A closed set contains everything its members reach. */
  lemma ClosedContains(g: Graph, s: set<nat>, a: nat, x: nat)
    requires Closed(g, s) && a in s && Reaches(g, a, x)
    ensures x in s
  {
    var p :| IsPath(g, p) && p[0] == a && p[|p| - 1] == x;
    PathStays(g, s, p, |p| - 1);
  }

  lemma {:induction false} PathStays(g: Graph, s: set<nat>, p: seq<nat>, k: nat)
    requires Closed(g, s) && IsPath(g, p) && p[0] in s && k < |p|
    ensures p[k] in s
    decreases k
  {
    if k > 0 { PathStays(g, s, p, k - 1); }
  }

  /** A closed set around the seeds. */
  predicate Covers(g: Graph, seeds: seq<nat>, s: set<nat>) {
    Closed(g, s) && forall a :: a in seeds ==> a in s
  }

  /** A covering set of reachable nodes is exactly the reachable ones. */
  lemma ClosureIsExact(g: Graph, seeds: seq<nat>, s: set<nat>)
    requires Covers(g, seeds, s) && forall x :: x in s ==> From(g, seeds, x)
    ensures forall x :: x in s <==> From(g, seeds, x)
  {
    forall x | From(g, seeds, x) ensures x in s {
      var a :| a in seeds && Reaches(g, a, x);
      ClosedContains(g, s, a, x);
    }
  }

  /** The reachable nodes are the least covering set. */
  lemma ClosureIsLeast(g: Graph, seeds: seq<nat>, s: set<nat>, t: set<nat>)
    requires (forall x :: x in s ==> From(g, seeds, x)) && Covers(g, seeds, t)
    ensures s <= t
  {
    forall x | x in s ensures x in t {
      var a :| a in seeds && Reaches(g, a, x);
      ClosedContains(g, t, a, x);
    }
  }

  function Below(n: nat): (s: set<nat>)
    ensures |s| == n && forall i: nat :: i in s <==> i < n
  {
    if n == 0 then {} else Below(n - 1) + {n - 1}
  }

  lemma BoundedSize(s: set<nat>, n: nat)
    requires forall i :: i in s ==> i < n
    ensures |s| <= n
  {
    var rest := Below(n) - s;
    assert Below(n) == s + rest;
  }

  /** Everything stacked or visited is reachable, and the rest hangs off the stack. */
  ghost predicate Working(g: Graph, seeds: seq<nat>, stack: seq<nat>, out: set<nat>) {
    && (forall x :: x in stack ==> x < |g| && From(g, seeds, x))
    && (forall x :: x in out ==> x < |g| && From(g, seeds, x))
    && (forall a :: a in seeds ==> a in stack || a in out)
    && (forall x, y :: x in out && y in g[x] ==> y in stack || y in out)
  }

  lemma WorkStart(g: Graph, seeds: seq<nat>)
    requires forall a :: a in seeds ==> a < |g|
    ensures Working(g, seeds, seeds, {})
  {
    forall x | x in seeds ensures From(g, seeds, x) { ReachesSelf(g, x); }
  }

  lemma WorkBounds(g: Graph, seeds: seq<nat>, stack: seq<nat>, out: set<nat>)
    requires Working(g, seeds, stack, out) && stack != []
    ensures stack[|stack| - 1] < |g| && |out| <= |g| && |out + {stack[|stack| - 1]}| <= |g|
  {
    var id := stack[|stack| - 1];
    assert id in stack;
    BoundedSize(out + {id}, |g|);
    BoundedSize(out, |g|);
  }

  lemma WorkDone(g: Graph, seeds: seq<nat>, out: set<nat>)
    requires Working(g, seeds, [], out)
    ensures forall x :: x in out <==> From(g, seeds, x)
    ensures Covers(g, seeds, out) && forall x :: x in out ==> x < |g|
  {
    ClosureIsExact(g, seeds, out);
  }

  lemma WorkStep(g: Graph, seeds: seq<nat>, stack: seq<nat>, out: set<nat>)
    requires WellFormed(g) && Working(g, seeds, stack, out) && stack != [] && stack[|stack| - 1] < |g|
    ensures var id, rest := stack[|stack| - 1], stack[..|stack| - 1];
      Working(g, seeds, if id in out then rest else rest + g[id], out + {id})
  {
    var id, rest := stack[|stack| - 1], stack[..|stack| - 1];
    assert stack == rest + [id] && id in stack;
    var stack' := if id in out then rest else rest + g[id];
    forall x | x in g[id] ensures x < |g| && From(g, seeds, x) {
      var a :| a in seeds && Reaches(g, a, id);
      ReachesStep(g, a, id, x);
    }
    forall x | x in stack' ensures x < |g| && From(g, seeds, x) {
      if x in rest { assert x in stack; } else { assert x in g[id]; }
    }
    forall a | a in seeds ensures a in stack' || a in out + {id} {
      if a in stack { assert a in rest || a == id; }
    }
    forall x, y | x in out + {id} && y in g[x] ensures y in stack' || y in out + {id} {
      if x in out {
        assert y in stack || y in out;
        assert y in stack ==> y in rest || y == id;
      } else {
        assert x == id && y in stack';
      }
    }
  }

  // ---------------------------------------------------------------- the identity arena

  datatype Identity = Identity(name: string, module_: string, base: seq<nat>, derived: seq<nat>, sid: Option<i64>)

  function Downward(ids: seq<Identity>): (g: Graph)
    ensures |g| == |ids| && forall i :: 0 <= i < |ids| ==> g[i] == ids[i].derived
  {
    seq(|ids|, i requires 0 <= i < |ids| => ids[i].derived)
  }

  function Upward(ids: seq<Identity>): (g: Graph)
    ensures |g| == |ids| && forall i :: 0 <= i < |ids| ==> g[i] == ids[i].base
  {
    seq(|ids|, i requires 0 <= i < |ids| => ids[i].base)
  }

  /** Indices are valid, and `derived` lists exactly the inverse of `base`. */
  predicate Linked(ids: seq<Identity>) {
    && WellFormed(Downward(ids)) && WellFormed(Upward(ids))
    && forall i, j :: 0 <= i < |ids| && 0 <= j < |ids| ==> (j in ids[i].derived <==> i in ids[j].base)
  }

  /** `d` is derived from `b` by one or more derivation edges. */
  ghost predicate DerivedFrom(ids: seq<Identity>, d: nat, b: nat) {
    b < |ids| && From(Downward(ids), ids[b].derived, d)
  }

  /** Everything the seeds reach: pop a node, and stack its successors unless it has been there before. */
  method Closure(g: Graph, seeds: seq<nat>) returns (out: set<nat>)
    requires WellFormed(g) && forall a :: a in seeds ==> a < |g|
    ensures forall x :: x in out <==> From(g, seeds, x)
    ensures Covers(g, seeds, out) && forall x :: x in out ==> x < |g|
  {
    hide Working, WellFormed;
    out := {};
    var stack := seeds;
    WorkStart(g, seeds);
    while stack != []
      invariant Working(g, seeds, stack, out)
      decreases |g| - |out|, |stack|
    {
      WorkBounds(g, seeds, stack, out);
      WorkStep(g, seeds, stack, out);
      var id := stack[|stack| - 1];
      stack := stack[..|stack| - 1];
      if id !in out {
        out := out + {id};
        stack := stack + g[id];
      } else {
        assert out + {id} == out;
      }
    }
    WorkDone(g, seeds, out);
  }

  /** The identities derived from `start`, directly or not; `start` itself only when it is on a cycle. */
  method TransitiveDerivedExcludingSelf(ids: seq<Identity>, start: nat) returns (out: set<nat>)
    requires Linked(ids) && start < |ids|
    ensures forall x :: x in out <==> DerivedFrom(ids, x, start)
    ensures forall x :: x in out ==> x < |ids|
  {
    var g := Downward(ids);
    forall a | a in ids[start].derived ensures a < |g| { InRange(g, start, a); }
    out := Closure(g, ids[start].derived);
  }

  lemma InRange(g: Graph, i: nat, a: nat)
    requires WellFormed(g) && i < |g| && a in g[i]
    ensures a < |g|
  {
    var k :| 0 <= k < |g[i]| && g[i][k] == a;
  }

  /** The identities a catalog keeps: the implemented ones, the bases in use, and all bases above them. */
  method ReachableIdentities(ids: seq<Identity>, seeds: seq<nat>) returns (out: set<nat>)
    requires Linked(ids) && forall a :: a in seeds ==> a < |ids|
    ensures forall x :: x in out <==> From(Upward(ids), seeds, x)
    ensures Covers(Upward(ids), seeds, out)
    ensures forall t :: Covers(Upward(ids), seeds, t) ==> out <= t
  {
    out := Closure(Upward(ids), seeds);
    forall t | Covers(Upward(ids), seeds, t) ensures out <= t { ClosureIsLeast(Upward(ids), seeds, out, t); }
  }

  /** The identities derived from every one of `bases`; none when there are no bases. */
  method DerivedFromAll(ids: seq<Identity>, bases: seq<nat>) returns (out: set<nat>)
    requires Linked(ids) && forall b :: b in bases ==> b < |ids|
    ensures forall x :: x in out <==> bases != [] && forall b :: b in bases ==> DerivedFrom(ids, x, b)
    ensures forall x :: x in out ==> x < |ids|
  {
    if bases == [] { return {}; }
    assert bases[0] in bases;
    out := TransitiveDerivedExcludingSelf(ids, bases[0]);
    for i := 1 to |bases|
      invariant forall x :: x in out <==> forall b :: b in bases[..i] ==> DerivedFrom(ids, x, b)
      invariant forall x :: x in out ==> x < |ids|
    {
      assert bases[i] in bases;
      var other := TransitiveDerivedExcludingSelf(ids, bases[i]);
      assert forall b :: b in bases[..i + 1] <==> b in bases[..i] || b == bases[i];
      out := out * other;
    }
    assert bases[..|bases|] == bases;
  }

  // ---------------------------------------------------------------- the upward search

  /** The catalog's identities: each name with the names of its bases. */
  type Catalog = map<string, seq<string>>

  predicate IsChain(c: Catalog, p: seq<string>) {
    p != [] && forall k :: 0 <= k < |p| - 1 ==> p[k] in c && p[k + 1] in c[p[k]]
  }

  /** `base` is reached from `name` by zero or more base edges. */
  ghost predicate Climbs(c: Catalog, name: string, base: string) {
    exists p :: IsChain(c, p) && p[0] == name && p[|p| - 1] == base
  }

  /** `base` is reached from `name` by one or more base edges. */
  ghost predicate HasBase(c: Catalog, name: string, base: string) {
    exists n :: Climbs(c, name, n) && n in c && base in c[n]
  }

  lemma ClimbsStep(c: Catalog, a: string, x: string, y: string)
    requires Climbs(c, a, x) && x in c && y in c[x]
    ensures Climbs(c, a, y)
  {
    var p :| IsChain(c, p) && p[0] == a && p[|p| - 1] == x;
    var q := p + [y];
    forall k | 0 <= k < |q| - 1 ensures q[k] in c && q[k + 1] in c[q[k]] {
      if k < |p| - 1 { assert q[k] == p[k] && q[k + 1] == p[k + 1]; }
    }
    assert IsChain(c, q) && q[0] == a && q[|q| - 1] == y;
  }

  /** A set of names that lists every base of its members contains all they climb to. */
  lemma ClimbStays(c: Catalog, s: set<string>, a: string, x: string)
    requires Climbs(c, a, x) && a in s && forall n, b :: n in s && n in c && b in c[n] ==> b in s
    ensures x in s
  {
    var p :| IsChain(c, p) && p[0] == a && p[|p| - 1] == x;
    ChainStays(c, s, p, |p| - 1);
  }

  lemma {:induction false} ChainStays(c: Catalog, s: set<string>, p: seq<string>, k: nat)
    requires IsChain(c, p) && p[0] in s && k < |p| && forall n, b :: n in s && n in c && b in c[n] ==> b in s
    ensures p[k] in s
    decreases k
  {
    if k > 0 { ChainStays(c, s, p, k - 1); }
  }

  /** Every name that occurs as a base. */
  function AllBases(c: Catalog): set<string> {
    set n, b | n in c && b in c[n] :: b
  }

  /** The search from `identity` has expanded or stacked every name seen, and none of the expanded has `base`. */
  ghost predicate Searching(c: Catalog, identity: string, base: string, stack: seq<string>, seen: set<string>,
                            expanded: set<string>) {
    && (forall n :: n in stack ==> Climbs(c, identity, n)) && (forall n :: n in expanded ==> Climbs(c, identity, n))
    && (identity in stack || identity in expanded)
    && (forall n :: n in seen ==> n in stack || n in expanded)
    && (forall n, b :: n in expanded && n in c && b in c[n] ==> b in seen)
    && (forall n :: n in expanded && n in c ==> base !in c[n])
  }

  lemma SearchStep(c: Catalog, identity: string, base: string, before: seq<string>, seen0: set<string>,
                   expanded: set<string>, stack: seq<string>, seen: set<string>)
    requires Searching(c, identity, base, before, seen0, expanded) && before != [] && seen0 <= seen
    requires forall n :: n in before[..|before| - 1] ==> n in stack
    requires forall n :: n in stack ==> Climbs(c, identity, n)
    requires var id := before[|before| - 1];
      && (forall n :: n in seen ==> n in stack || n in expanded || n == id)
      && (id in c ==> base !in c[id] && forall b :: b in c[id] ==> b in seen)
    ensures Searching(c, identity, base, stack, seen, expanded + {before[|before| - 1]})
  {
    var id, popped := before[|before| - 1], before[..|before| - 1];
    assert before == popped + [id] && id in before;
  }

  /** When nothing is left to expand and no base has been found, there is none. */
  lemma SearchFails(c: Catalog, identity: string, base: string, seen: set<string>, expanded: set<string>)
    requires Searching(c, identity, base, [], seen, expanded)
    ensures !HasBase(c, identity, base)
  {
    if n :| Climbs(c, identity, n) && n in c && base in c[n] {
      ClimbStays(c, expanded, identity, n);
      assert false;
    }
  }

  /** Whether `identity` has `base` among its bases, directly or not. */
  method DerivesFrom(identities: Catalog, identity: string, base: string) returns (r: bool)
    ensures r <==> HasBase(identities, identity, base)
  {
    var stack := [identity];
    var seen: set<string> := {};
    ghost var expanded: set<string> := {};
    assert IsChain(identities, [identity]) && [identity][0] == identity && [identity][|[identity]| - 1] == identity;
    while stack != []
      invariant Searching(identities, identity, base, stack, seen, expanded) && seen <= AllBases(identities)
      decreases |AllBases(identities)| - |seen|, |stack|
    {
      var id := stack[|stack| - 1];
      ghost var before, seen0 := stack, seen;
      stack := stack[..|stack| - 1];
      assert id in before && (forall n :: n in stack ==> n in before);
      if id in identities {
        var found;
        found, stack, seen := PushBases(identities, identity, base, id, stack, seen);
        if found { return true; }
      }
      SearchStep(identities, identity, base, before, seen0, expanded, stack, seen);
      ProperSubsetSize(seen0, seen);
      ProperSubsetSize(seen, AllBases(identities));
      expanded := expanded + {id};
    }
    SearchFails(identities, identity, base, seen, expanded);
    return false;
  }

  /** Stack the bases of `id` that have not been seen, unless one of them is the one looked for. */
  method PushBases(c: Catalog, ghost identity: string, base: string, id: string, popped: seq<string>, seen0: set<string>)
    returns (found: bool, stack: seq<string>, seen: set<string>)
    requires id in c && Climbs(c, identity, id) && seen0 <= AllBases(c)
    requires forall n :: n in popped ==> Climbs(c, identity, n)
    ensures found ==> HasBase(c, identity, base)
    ensures !found ==> base !in c[id] && forall b :: b in c[id] ==> b in seen
    ensures seen0 <= seen <= AllBases(c) && (seen == seen0 ==> stack == popped)
    ensures forall n :: n in stack ==> Climbs(c, identity, n)
    ensures forall n :: n in popped ==> n in stack
    ensures forall n :: n in seen ==> n in stack || n in seen0
  {
    found, stack, seen := false, popped, seen0;
    for i := 0 to |c[id]|
      invariant forall n :: n in stack ==> Climbs(c, identity, n)
      invariant forall n :: n in popped ==> n in stack
      invariant forall n :: n in seen ==> n in stack || n in seen0
      invariant forall k :: 0 <= k < i ==> c[id][k] in seen && c[id][k] != base
      invariant seen0 <= seen <= AllBases(c) && (seen == seen0 ==> stack == popped)
    {
      var b := c[id][i];
      if b == base {
        assert Climbs(c, identity, id) && base in c[id];
        return true, stack, seen;
      }
      if b !in seen {
        ClimbsStep(c, identity, id, b);
        seen := seen + {b};
        stack := stack + [b];
      }
    }
  }

  lemma ProperSubsetSize(a: set<string>, b: set<string>)
    requires a <= b
    ensures |a| <= |b| && (a != b ==> |a| < |b|)
  {
    var rest := b - a;
    assert b == a + rest;
  }

  // ---------------------------------------------------------------- the two directions agree

  /** A catalog of a set of identities under distinct names, with the names of all their bases. */
  ghost predicate Describes(c: Catalog, ids: seq<Identity>, kept: set<nat>, name: nat -> string) {
    && (forall i :: i in kept ==> i < |ids|)
    && (forall i, j :: 0 <= i < |ids| && 0 <= j < |ids| && name(i) == name(j) ==> i == j)
    && (forall i :: i in kept ==> name(i) in c && c[name(i)] == Names(ids[i].base, name))
    && Closed(Upward(ids), kept)
  }

  function Names(ids: seq<nat>, name: nat -> string): (r: seq<string>)
    ensures |r| == |ids| && forall k :: 0 <= k < |ids| ==> r[k] == name(ids[k])
  {
    seq(|ids|, k requires 0 <= k < |ids| => name(ids[k]))
  }

  /** Turning a path round turns base edges into derivation edges. */
  lemma {:induction false} UpIsDown(ids: seq<Identity>, p: seq<nat>, k: nat)
    requires Linked(ids) && IsPath(Upward(ids), p) && k < |p| && p[0] < |ids|
    ensures p[k] < |ids| && Reaches(Downward(ids), p[k], p[0])
    decreases k
  {
    if k == 0 {
      ReachesSelf(Downward(ids), p[0]);
    } else {
      UpIsDown(ids, p, k - 1);
      assert p[k] in Upward(ids)[p[k - 1]];
      InRange(Upward(ids), p[k - 1], p[k]);
      assert p[k - 1] in ids[p[k]].derived;
      ReachesBefore(Downward(ids), p[k], p[k - 1], p[0]);
    }
  }

  lemma ReachesBefore(g: Graph, a: nat, b: nat, x: nat)
    requires a < |g| && b in g[a] && Reaches(g, b, x)
    ensures Reaches(g, a, x)
  {
    var p :| IsPath(g, p) && p[0] == b && p[|p| - 1] == x;
    var q := [a] + p;
    forall k | 0 <= k < |q| - 1 ensures q[k] < |g| && q[k + 1] in g[q[k]] {
      if k > 0 { assert q[k] == p[k - 1] && q[k + 1] == p[k]; }
    }
    assert IsPath(g, q) && q[0] == a && q[|q| - 1] == x;
  }

  /** A chain of names in the catalog, from a kept identity up, is a path of identities. */
  lemma {:induction false} ChainIsPath(c: Catalog, ids: seq<Identity>, kept: set<nat>, name: nat -> string,
                                       p: seq<string>, k: nat, a: nat)
    requires Describes(c, ids, kept, name) && Linked(ids) && IsChain(c, p) && k < |p| && a in kept && p[0] == name(a)
    ensures exists x :: x in kept && name(x) == p[k] && Reaches(Upward(ids), a, x)
    decreases k
  {
    if k == 0 {
      ReachesSelf(Upward(ids), a);
    } else {
      ChainIsPath(c, ids, kept, name, p, k - 1, a);
      var x :| x in kept && name(x) == p[k - 1] && Reaches(Upward(ids), a, x);
      assert p[k] in c[p[k - 1]];
      var j :| 0 <= j < |c[p[k - 1]]| && c[p[k - 1]][j] == p[k];
      var y := ids[x].base[j];
      assert y in Upward(ids)[x];
      ReachesStep(Upward(ids), a, x, y);
    }
  }

  lemma {:induction false} PathIsChain(c: Catalog, ids: seq<Identity>, kept: set<nat>, name: nat -> string,
                                       p: seq<nat>, k: nat)
    requires Describes(c, ids, kept, name) && IsPath(Upward(ids), p) && k < |p| && p[0] in kept
    ensures p[k] in kept && Climbs(c, name(p[0]), name(p[k]))
    decreases k
  {
    if k == 0 {
      var q := [name(p[0])];
      assert IsChain(c, q) && q[0] == name(p[0]) && q[|q| - 1] == name(p[0]);
    } else {
      PathIsChain(c, ids, kept, name, p, k - 1);
      var x, y := p[k - 1], p[k];
      assert y in Upward(ids)[x];
      var j :| 0 <= j < |ids[x].base| && ids[x].base[j] == y;
      assert c[name(x)][j] == name(y);
      ClimbsStep(c, name(p[0]), name(x), name(y));
    }
  }

  /**
   * The catalog check's upward search and the builder's downward closure agree: a kept identity `d` is found to derive
   * from `b` exactly when it is reached from `b` by one or more derivation edges.
   */
  lemma DirectionsAgree(c: Catalog, ids: seq<Identity>, kept: set<nat>, name: nat -> string, d: nat, b: nat)
    requires Describes(c, ids, kept, name) && Linked(ids) && d in kept && b < |ids|
    ensures HasBase(c, name(d), name(b)) <==> DerivedFrom(ids, d, b)
  {
    if HasBase(c, name(d), name(b)) { FoundIsDerived(c, ids, kept, name, d, b); }
    if DerivedFrom(ids, d, b) { DerivedIsFound(c, ids, kept, name, d, b); }
  }

  lemma FoundIsDerived(c: Catalog, ids: seq<Identity>, kept: set<nat>, name: nat -> string, d: nat, b: nat)
    requires Describes(c, ids, kept, name) && Linked(ids) && d in kept && b < |ids| && HasBase(c, name(d), name(b))
    ensures DerivedFrom(ids, d, b)
  {
    var n :| Climbs(c, name(d), n) && n in c && name(b) in c[n];
    var p :| IsChain(c, p) && p[0] == name(d) && p[|p| - 1] == n;
    ChainIsPath(c, ids, kept, name, p, |p| - 1, d);
    var x :| x in kept && name(x) == n && Reaches(Upward(ids), d, x);
    var j :| 0 <= j < |c[n]| && c[n][j] == name(b);
    InRange(Upward(ids), x, ids[x].base[j]);
    assert ids[x].base[j] == b;
    var q :| IsPath(Upward(ids), q) && q[0] == d && q[|q| - 1] == x;
    UpIsDown(ids, q, |q| - 1);
    assert x in ids[b].derived && Reaches(Downward(ids), x, d);
  }

  lemma DerivedIsFound(c: Catalog, ids: seq<Identity>, kept: set<nat>, name: nat -> string, d: nat, b: nat)
    requires Describes(c, ids, kept, name) && Linked(ids) && d in kept && DerivedFrom(ids, d, b)
    ensures HasBase(c, name(d), name(b))
  {
    var a :| a in ids[b].derived && Reaches(Downward(ids), a, d);
    InRange(Downward(ids), b, a);
    DownIsUp(ids, a, d);
    var q :| IsPath(Upward(ids), q) && q[0] == d && q[|q| - 1] == a;
    PathIsChain(c, ids, kept, name, q, |q| - 1);
    assert b in ids[a].base;
    var j :| 0 <= j < |ids[a].base| && ids[a].base[j] == b;
    assert c[name(a)][j] == name(b);
  }

  lemma DownIsUp(ids: seq<Identity>, a: nat, d: nat)
    requires Linked(ids) && Reaches(Downward(ids), a, d) && a < |ids|
    ensures Reaches(Upward(ids), d, a)
  {
    var p :| IsPath(Downward(ids), p) && p[0] == a && p[|p| - 1] == d;
    DownPath(ids, p, |p| - 1);
  }

  lemma {:induction false} DownPath(ids: seq<Identity>, p: seq<nat>, k: nat)
    requires Linked(ids) && IsPath(Downward(ids), p) && k < |p| && p[0] < |ids|
    ensures p[k] < |ids| && Reaches(Upward(ids), p[k], p[0])
    decreases k
  {
    if k == 0 {
      ReachesSelf(Upward(ids), p[0]);
    } else {
      DownPath(ids, p, k - 1);
      assert p[k] in Downward(ids)[p[k - 1]];
      InRange(Downward(ids), p[k - 1], p[k]);
      assert p[k - 1] in ids[p[k]].base;
      ReachesBefore(Upward(ids), p[k], p[k - 1], p[0]);
    }
  }

  // ---------------------------------------------------------------- value sets and accept-lists

  /** Derived from every base of a type. */
  ghost predicate FromEvery(ids: seq<Identity>, bases: seq<nat>, x: nat) {
    forall b :: b in bases ==> DerivedFrom(ids, x, b)
  }

  /** An entry that names an identity derived from every base; no entry is acceptable where there is no base. */
  ghost predicate Acceptable(ids: seq<Identity>, bases: seq<nat>, entry: Option<nat>) {
    entry.Some? && bases != [] && FromEvery(ids, bases, entry.value)
  }

  /**
   * Resolve the entries of an accept-list, each already looked up by name; refused when an entry names nothing or is
   * not derived from every base.
   */
  method AcceptedIdentities(ids: seq<Identity>, entries: seq<Option<nat>>, bases: seq<nat>) returns (r: Option<set<nat>>)
    requires Linked(ids) && forall b :: b in bases ==> b < |ids|
    ensures r.Some? <==> forall k :: 0 <= k < |entries| ==> Acceptable(ids, bases, entries[k])
    ensures r.Some? ==> forall x :: x in r.value <==> Some(x) in entries
  {
    var derived := DerivedFromAll(ids, bases);
    r := AcceptFrom(entries, derived);
    forall k | 0 <= k < |entries|
      ensures entries[k].Some? && entries[k].value in derived <==> Acceptable(ids, bases, entries[k])
    {
    }
  }

  /** The entries as a set, unless one is unknown or not allowed. */
  method AcceptFrom(entries: seq<Option<nat>>, allowed: set<nat>) returns (r: Option<set<nat>>)
    ensures r.Some? <==> forall k :: 0 <= k < |entries| ==> entries[k].Some? && entries[k].value in allowed
    ensures r.Some? ==> forall x :: x in r.value <==> Some(x) in entries
  {
    var accepted: set<nat> := {};
    for i := 0 to |entries|
      invariant forall k :: 0 <= k < i ==> entries[k].Some? && entries[k].value in allowed
      invariant forall x :: x in accepted <==> Some(x) in entries[..i]
    {
      assert entries[..i + 1] == entries[..i] + [entries[i]];
      if entries[i].None? { return None; }
      if entries[i].value !in allowed { return None; }
      accepted := accepted + {entries[i].value};
    }
    assert entries[..|entries|] == entries;
    return Some(accepted);
  }

  /** Accept-lists by base hold only identities derived from that base. */
  ghost predicate ListsDerive(ids: seq<Identity>, byBase: map<nat, set<nat>>) {
    forall b, x :: b in byBase && x in byBase[b] ==> DerivedFrom(ids, x, b)
  }

  /**
   * The value set of an identityref: the leaf's own accept-list, or what is accepted for every base. It holds only
   * identities derived from every base, and all of them when no accept-list applies.
   */
  method AssignIdentityValues(ids: seq<Identity>, bases: seq<nat>, byLeaf: Option<set<nat>>, byBase: map<nat, set<nat>>)
    returns (values: set<nat>)
    requires Linked(ids) && ListsDerive(ids, byBase) && forall b :: b in bases ==> b < |ids|
    requires byLeaf.Some? ==> forall x :: x in byLeaf.value ==> FromEvery(ids, bases, x)
    ensures forall x :: x in values ==> FromEvery(ids, bases, x)
    ensures byLeaf.Some? ==> values == byLeaf.value
    ensures byLeaf.None? ==> forall x :: x in values <==>
      bases != [] && forall b :: b in bases ==> if b in byBase then x in byBase[b] else DerivedFrom(ids, x, b)
  {
    if byLeaf.Some? { return byLeaf.value; }
    var acc: Option<set<nat>> := None;
    for i := 0 to |bases|
      invariant acc.Some? <==> i > 0
      invariant acc.Some? ==> forall x :: x in acc.value <==>
        forall b :: b in bases[..i] ==> if b in byBase then x in byBase[b] else DerivedFrom(ids, x, b)
    {
      var base := bases[i];
      assert base in bases;
      var forBase;
      if base in byBase {
        forBase := byBase[base];
      } else {
        forBase := TransitiveDerivedExcludingSelf(ids, base);
      }
      assert forall b :: b in bases[..i + 1] <==> b in bases[..i] || b == base;
      acc := match acc case Some(v) => Some(v * forBase) case None => Some(forBase);
    }
    assert bases[..|bases|] == bases;
    return if acc.Some? then acc.value else {};
  }
}
