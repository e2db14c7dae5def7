// What "derived from" means, in the schema and in the catalog: one edge or more, and nothing that edges do not demand; and the
// order in which the catalog lists names.

module YangDerivation {
  import opened Bytes
  import opened YangIdentity
  import YangIdentityCheck

  lemma {:induction false} FirstEdge(g: Graph, a: nat, d: nat)
    ensures Reaches(g, a, d) <==> a == d || (a < |g| && exists m :: m in g[a] && Reaches(g, m, d))
  {
    if Reaches(g, a, d) && a != d {
      var p :| IsPath(g, p) && p[0] == a && p[|p| - 1] == d;
      var q := p[1..];
      forall k | 0 <= k < |q| - 1 ensures q[k] < |g| && q[k + 1] in g[q[k]] {
        assert q[k] == p[k + 1] && q[k + 1] == p[k + 2];
      }
      assert IsPath(g, q) && q[0] == p[1] && q[|q| - 1] == d;
      assert p[1] in g[p[0]] && Reaches(g, p[1], d);
    }
    if a == d { ReachesSelf(g, a); }
    if m :| a < |g| && m in g[a] && Reaches(g, m, d) { ReachesBefore(g, a, m, d); }
  }

  /** An identity is derived from another if it is derived directly, or from one that is. */
  lemma DerivedUnfolds(ids: seq<Identity>, d: nat, b: nat)
    requires Linked(ids) && b < |ids|
    ensures DerivedFrom(ids, d, b) <==>
      d in ids[b].derived || exists m :: m in ids[b].derived && DerivedFrom(ids, d, m)
  {
    var g := Downward(ids);
    if DerivedFrom(ids, d, b) {
      var a :| a in ids[b].derived && Reaches(g, a, d);
      assert a in g[b];
      InRange(g, b, a);
      FirstEdge(g, a, d);
      if a != d {
        var m :| m in g[a] && Reaches(g, m, d);
        assert DerivedFrom(ids, d, a);
      }
    }
    if d in ids[b].derived { ReachesSelf(g, d); }
    if m :| m in ids[b].derived && DerivedFrom(ids, d, m) {
      var a :| a in ids[m].derived && Reaches(g, a, d);
      ReachesBefore(g, m, a, d);
    }
  }

  /** Any set that holds what is derived directly, and what is derived from its members, holds all that is derived. */
  lemma DerivedIsLeast(ids: seq<Identity>, d: nat, b: nat, s: set<nat>)
    requires Linked(ids) && b < |ids| && DerivedFrom(ids, d, b)
    requires forall m :: m in ids[b].derived ==> m in s
    requires forall x, y :: x in s && x < |ids| && y in ids[x].derived ==> y in s
    ensures d in s
  {
    var g := Downward(ids);
    assert Closed(g, s);
    var a :| a in ids[b].derived && Reaches(g, a, d);
    ClosedContains(g, s, a, d);
  }

  lemma FirstClimb(c: Catalog, name: string, base: string)
    ensures Climbs(c, name, base) <==> name == base || (name in c && exists n :: n in c[name] && Climbs(c, n, base))
  {
    if Climbs(c, name, base) && name != base {
      var p :| IsChain(c, p) && p[0] == name && p[|p| - 1] == base;
      var q := p[1..];
      forall k | 0 <= k < |q| - 1 ensures q[k] in c && q[k + 1] in c[q[k]] {
        assert q[k] == p[k + 1] && q[k + 1] == p[k + 2];
      }
      assert IsChain(c, q) && q[0] == p[1] && q[|q| - 1] == base;
      assert p[1] in c[p[0]] && Climbs(c, p[1], base);
    }
    if name == base { assert IsChain(c, [name]) && [name][0] == name && [name][|[name]| - 1] == base; }
    if n :| name in c && n in c[name] && Climbs(c, n, base) {
      var p :| IsChain(c, p) && p[0] == n && p[|p| - 1] == base;
      var q := [name] + p;
      forall k | 0 <= k < |q| - 1 ensures q[k] in c && q[k + 1] in c[q[k]] {
        if k > 0 { assert q[k] == p[k - 1] && q[k + 1] == p[k]; }
      }
      assert IsChain(c, q) && q[0] == name && q[|q| - 1] == base;
    }
  }

  /** In the catalog a name has a base if it lists it, or lists a name that has it. */
  lemma HasBaseUnfolds(c: Catalog, name: string, base: string)
    ensures HasBase(c, name, base) <==>
      name in c && (base in c[name] || exists n :: n in c[name] && HasBase(c, n, base))
  {
    if HasBase(c, name, base) {
      var n :| Climbs(c, name, n) && n in c && base in c[n];
      FirstClimb(c, name, n);
      if name != n {
        var m :| m in c[name] && Climbs(c, m, n);
        assert HasBase(c, m, base);
      }
    }
    if name in c && base in c[name] { FirstClimb(c, name, name); }
    if m :| name in c && m in c[name] && HasBase(c, m, base) {
      var n :| Climbs(c, m, n) && n in c && base in c[n];
      FirstClimb(c, name, n);
    }
  }

  /** Names are compared character by character, and one that goes on is the greater. */
  lemma {:induction false} NameOrder(common: string, a: string, b: string)
    ensures YangIdentityCheck.Less(common + a, common + b) <==>
      if a == "" || b == "" then a == "" && b != "" else a[0] < b[0] || (a[0] == b[0] && YangIdentityCheck.Less(a[1..], b[1..]))
    decreases |common|
  {
    if common == "" {
      assert common + a == a && common + b == b;
    } else {
      NameOrder(common[1..], a, b);
      assert (common + a)[1..] == common[1..] + a && (common + b)[1..] == common[1..] + b;
    }
  }
}
