// Registering identities: entries are created on first mention, also as a forward reference, and every base edge is
// entered in both directions, so that the graph searched downward and the one searched upward are always each other's
// inverse, cycles included.

module YangIdentityArena {
  import opened Bytes
  import opened YangIdentity
  import T = YangText

  type Key = (string, string)

  function KeyOf(x: Identity): Key {
    (x.module_, x.name)
  }

  /** The name table leads to exactly the identities there are, each under its own module and name. */
  predicate Named(ids: seq<Identity>, byName: map<Key, nat>) {
    && (forall k :: k in byName ==> byName[k] < |ids| && KeyOf(ids[byName[k]]) == k)
    && (forall i :: 0 <= i < |ids| ==> KeyOf(ids[i]) in byName && byName[KeyOf(ids[i])] == i)
  }

  /** The identities once `k` has been mentioned: a new one has no edges yet. */
  function Registered(ids: seq<Identity>, byName: map<Key, nat>, k: Key): (r: seq<Identity>)
    ensures |r| >= |ids|
  {
    if k in byName then ids else ids + [Identity(k.1, k.0, [], [], None)]
  }

  /** `ids` with the base edge from `d` up to `b`, entered at both ends. */
  function WithEdge(ids: seq<Identity>, d: nat, b: nat): (r: seq<Identity>)
    requires d < |ids| && b < |ids|
    ensures |r| == |ids| && forall i :: 0 <= i < |ids| ==>
      r[i] == ids[i].(base := if i == d then ids[i].base + [b] else ids[i].base,
                      derived := if i == b then ids[i].derived + [d] else ids[i].derived)
  {
    var up := ids[d := ids[d].(base := ids[d].base + [b])];
    up[b := up[b].(derived := up[b].derived + [d])]
  }

  lemma {:induction false} WithEdgeLinked(ids: seq<Identity>, d: nat, b: nat)
    requires Linked(ids) && d < |ids| && b < |ids|
    ensures Linked(WithEdge(ids, d, b))
  {
    var r := WithEdge(ids, d, b);
    forall i, x | 0 <= i < |r| && x in r[i].derived ensures x < |r| {
      if x !in ids[i].derived { assert x == d; } else { assert x in Downward(ids)[i]; InRange(Downward(ids), i, x); }
    }
    forall i, x | 0 <= i < |r| && x in r[i].base ensures x < |r| {
      if x !in ids[i].base { assert x == b; } else { assert x in Upward(ids)[i]; InRange(Upward(ids), i, x); }
    }
    forall i, j | 0 <= i < |r| && 0 <= j < |r| ensures j in r[i].derived <==> i in r[j].base {
      assert j in r[i].derived <==> j in ids[i].derived || (i == b && j == d);
      assert i in r[j].base <==> i in ids[j].base || (j == d && i == b);
    }
  }

  /** What was derived stays derived. */
  lemma {:induction false} EdgeKeepsDerived(ids: seq<Identity>, d: nat, b: nat, x: nat, y: nat)
    requires Linked(ids) && d < |ids| && b < |ids| && y < |ids| && DerivedFrom(ids, x, y)
    ensures DerivedFrom(WithEdge(ids, d, b), x, y)
  {
    var r := WithEdge(ids, d, b);
    var a :| a in ids[y].derived && Reaches(Downward(ids), a, x);
    var p: seq<nat> :| p != [] && IsPath(Downward(ids), p) && p[0] == a && p[|p| - 1] == x;
    assert IsPath(Downward(r), p) by {
      forall i | 0 <= i < |p| - 1 ensures p[i] < |r| && p[i + 1] in Downward(r)[p[i]] {
        assert p[i + 1] in Downward(ids)[p[i]];
      }
    }
    assert Reaches(Downward(r), a, x);
    assert a in r[y].derived;
  }

  lemma {:induction false} EdgeDerives(ids: seq<Identity>, d: nat, b: nat)
    requires d < |ids| && b < |ids|
    ensures DerivedFrom(WithEdge(ids, d, b), d, b)
  {
    var r := WithEdge(ids, d, b);
    ReachesSelf(Downward(r), d);
    assert r[b].derived[|r[b].derived| - 1] == d;
  }

  /** A step of the graph with the edge: an old one, or from `b` down to `d`. */
  lemma {:induction false} EdgeStep(ids: seq<Identity>, d: nat, b: nat, u: nat, v: nat)
    requires d < |ids| && b < |ids| && u < |ids| && v in Downward(WithEdge(ids, d, b))[u]
    ensures v in Downward(ids)[u] || (u == b && v == d)
  {
    assert v in WithEdge(ids, d, b)[u].derived;
  }

  lemma {:induction false} PathUsesEdge(ids: seq<Identity>, d: nat, b: nat, p: seq<nat>, k: nat)
    requires d < |ids| && b < |ids| && IsPath(Downward(WithEdge(ids, d, b)), p) && k < |p|
    ensures
      || Reaches(Downward(ids), p[0], p[k])
      || (Reaches(Downward(ids), p[0], b) && Reaches(Downward(ids), d, p[k]))
    decreases k
  {
    var g := Downward(ids);
    if k == 0 {
      ReachesSelf(g, p[0]);
    } else {
      PathUsesEdge(ids, d, b, p, k - 1);
      EdgeStep(ids, d, b, p[k - 1], p[k]);
      if p[k] in g[p[k - 1]] {
        if Reaches(g, p[0], p[k - 1]) { ReachesStep(g, p[0], p[k - 1], p[k]); } else { ReachesStep(g, d, p[k - 1], p[k]); }
      } else {
        ReachesSelf(g, d);
      }
    }
  }

  /** `x` is `d` or derived from it. */
  ghost predicate AtOrBelow(ids: seq<Identity>, x: nat, d: nat) {
    x == d || DerivedFrom(ids, x, d)
  }

  lemma {:induction false} ReachesIsAtOrBelow(ids: seq<Identity>, d: nat, x: nat)
    requires d < |ids| && Reaches(Downward(ids), d, x)
    ensures AtOrBelow(ids, x, d)
  {
    var p: seq<nat> :| IsPath(Downward(ids), p) && p[0] == d && p[|p| - 1] == x;
    if |p| > 1 {
      var q := p[1..];
      assert q[|q| - 1] == x && IsPath(Downward(ids), q) by {
        forall i | 0 <= i < |q| - 1 ensures q[i] < |ids| && q[i + 1] in Downward(ids)[q[i]] {
          assert q[i] == p[i + 1] && q[i + 1] == p[i + 2];
        }
      }
      assert Reaches(Downward(ids), p[1], x);
      assert p[1] in ids[d].derived;
    }
  }

  lemma {:induction false} NewDerivation(ids: seq<Identity>, d: nat, b: nat, x: nat, y: nat)
    requires d < |ids| && b < |ids| && y < |ids| && DerivedFrom(WithEdge(ids, d, b), x, y)
    ensures DerivedFrom(ids, x, y) || (AtOrBelow(ids, b, y) && AtOrBelow(ids, x, d))
  {
    var r, g := WithEdge(ids, d, b), Downward(ids);
    var a :| a in r[y].derived && Reaches(Downward(r), a, x);
    var p: seq<nat> :| IsPath(Downward(r), p) && p[0] == a && p[|p| - 1] == x;
    PathUsesEdge(ids, d, b, p, |p| - 1);
    EdgeStep(ids, d, b, y, a);
    if a in g[y] {
      if !Reaches(g, a, x) {
        ReachesIsAtOrBelow(ids, d, x);
        assert DerivedFrom(ids, b, y);
      }
    } else {
      ReachesIsAtOrBelow(ids, d, x);
    }
  }

  lemma {:induction false} EdgeJoins(ids: seq<Identity>, d: nat, b: nat, x: nat, y: nat)
    requires Linked(ids) && d < |ids| && b < |ids| && y < |ids| && AtOrBelow(ids, b, y) && AtOrBelow(ids, x, d)
    ensures DerivedFrom(WithEdge(ids, d, b), x, y)
  {
    var r := WithEdge(ids, d, b);
    EdgeDerives(ids, d, b);
    if b != y { EdgeKeepsDerived(ids, d, b, b, y); }
    if x != d { EdgeKeepsDerived(ids, d, b, x, d); }
    if b != y { DerivedTransitive(r, d, b, y); }
    if x != d { DerivedTransitive(r, x, d, y); }
  }

  lemma {:induction false} DerivedTransitive(ids: seq<Identity>, x: nat, m: nat, y: nat)
    requires DerivedFrom(ids, x, m) && DerivedFrom(ids, m, y)
    ensures DerivedFrom(ids, x, y)
  {
    var g := Downward(ids);
    var a :| a in ids[y].derived && Reaches(g, a, m);
    var c :| c in ids[m].derived && Reaches(g, c, x);
    ReachesStep(g, a, m, c);
    var p: seq<nat> :| IsPath(g, p) && p[0] == c && p[|p| - 1] == x;
    ReachesAlong(g, a, p, |p| - 1);
  }

  lemma {:induction false} ReachesAlong(g: Graph, a: nat, p: seq<nat>, k: nat)
    requires IsPath(g, p) && k < |p| && Reaches(g, a, p[0])
    ensures Reaches(g, a, p[k])
    decreases k
  {
    if k > 0 {
      ReachesAlong(g, a, p, k - 1);
      ReachesStep(g, a, p[k - 1], p[k]);
    }
  }

  /**
   * What one base statement changes, cycles included: everything at or below `d` is now derived from everything at or
   * above `b`, and nothing else is.
   */
  lemma {:induction false} EdgeExact(ids: seq<Identity>, d: nat, b: nat, x: nat, y: nat)
    requires Linked(ids) && d < |ids| && b < |ids| && y < |ids|
    ensures DerivedFrom(WithEdge(ids, d, b), x, y) <==>
      DerivedFrom(ids, x, y) || (AtOrBelow(ids, b, y) && AtOrBelow(ids, x, d))
  {
    if DerivedFrom(WithEdge(ids, d, b), x, y) { NewDerivation(ids, d, b, x, y); }
    if DerivedFrom(ids, x, y) { EdgeKeepsDerived(ids, d, b, x, y); }
    if AtOrBelow(ids, b, y) && AtOrBelow(ids, x, d) { EdgeJoins(ids, d, b, x, y); }
  }

  class Registry {
    var identities: seq<Identity>
    var byName: map<Key, nat>

    /** What registering keeps. */
    predicate Valid()
      reads this
    {
      Linked(identities) && Named(identities, byName)
    }

    constructor ()
      ensures Valid() && identities == []
    {
      identities, byName := [], map[];
    }

    /** The identity of this module and name, created without edges if it is new. */
    method GetIdentity(module_: string, name: string) returns (id: nat)
      requires Valid()
      modifies this
      ensures Valid() && id < |identities| && KeyOf(identities[id]) == (module_, name)
      ensures identities == Registered(old(identities), old(byName), (module_, name))
      ensures byName == if (module_, name) in old(byName) then old(byName) else old(byName)[(module_, name) := id]
    {
      if (module_, name) in byName {
        return byName[(module_, name)];
      }
      id := |identities|;
      ghost var before := identities;
      identities := identities + [Identity(name, module_, [], [], None)];
      byName := byName[(module_, name) := id];
      NewLinked(before, identities[id]);
    }

    /** Enter a base statement: the base may not have been registered yet, and may be the identity itself. */
    method AddBase(id: nat, module_: string, name: string) returns (base: nat)
      requires Valid() && id < |identities|
      modifies this
      ensures Valid() && base < |identities| && KeyOf(identities[base]) == (module_, name)
      ensures base < |Registered(old(identities), old(byName), (module_, name))|
      ensures identities == WithEdge(Registered(old(identities), old(byName), (module_, name)), id, base)
    {
      base := GetIdentity(module_, name);
      ghost var mid := identities;
      WithEdgeLinked(identities, id, base);
      identities := identities[id := identities[id].(base := identities[id].base + [base])];
      identities := identities[base := identities[base].(derived := identities[base].derived + [id])];
      assert identities == WithEdge(mid, id, base);
    }
  }

  lemma {:induction false} NewLinked(ids: seq<Identity>, fresh_: Identity)
    requires Linked(ids) && fresh_.base == [] && fresh_.derived == []
    ensures Linked(ids + [fresh_])
  {
    var r := ids + [fresh_];
    forall i, x | 0 <= i < |r| && x in r[i].derived ensures x < |r| {
      assert x in Downward(ids)[i];
      InRange(Downward(ids), i, x);
    }
    forall i, x | 0 <= i < |r| && x in r[i].base ensures x < |r| {
      assert x in Upward(ids)[i];
      InRange(Upward(ids), i, x);
    }
    forall i, j | 0 <= i < |r| && 0 <= j < |r| ensures j in r[i].derived <==> i in r[j].base {
    }
  }

  // ---------------------------------------------------------------- qualified names

  function QualifiedName(x: Identity): string {
    x.module_ + ":" + x.name
  }

  /** Module names have no colon, so registered identities have distinct qualified names. */
  lemma {:induction false} QualifiedNamesDistinct(ids: seq<Identity>, byName: map<Key, nat>, i: nat, j: nat)
    requires Named(ids, byName) && i < |ids| && j < |ids| && ':' !in ids[i].module_ && ':' !in ids[j].module_
    requires QualifiedName(ids[i]) == QualifiedName(ids[j])
    ensures i == j
  {
    T.SplitOnceAt(ids[i].module_, ':', ids[i].name);
    T.SplitOnceAt(ids[j].module_, ':', ids[j].name);
    assert KeyOf(ids[i]) == KeyOf(ids[j]);
  }
}
