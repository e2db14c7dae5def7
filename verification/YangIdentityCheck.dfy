// Identityref types from the builder to the catalog's own check: whatever value sets the builder assigns, in every
// member of every union, the catalog made from them passes.

module YangIdentityCheck {
  import opened Bytes
  import opened YangIdentity

  /** As much of a type as concerns identities: an identityref has bases and values, a union has members. */
  datatype RefType = RefType(isRef: bool, bases: seq<nat>, values: Option<set<nat>>, members: seq<RefType>)

  predicate BasesExist(ids: seq<Identity>, ty: RefType) {
    && (forall b :: b in ty.bases ==> b < |ids|)
    && (forall i :: 0 <= i < |ty.members| ==> BasesExist(ids, ty.members[i]))
  }

  /** The type is the same but for its values. */
  predicate SameButValues(a: RefType, b: RefType) {
    && a.isRef == b.isRef && a.bases == b.bases && |a.members| == |b.members|
    && (forall i :: 0 <= i < |a.members| ==> SameButValues(a.members[i], b.members[i]))
  }

  /** A value set with which no catalog check can find fault, anywhere in the type. */
  ghost predicate ValuesDerive(ids: seq<Identity>, ty: RefType) {
    && (ty.isRef ==> ty.values.Some? && forall x :: x in ty.values.value ==> FromEvery(ids, ty.bases, x))
    && (forall i :: 0 <= i < |ty.members| ==> ValuesDerive(ids, ty.members[i]))
  }

  /** Assign the values of an identityref, and of every member of a union; a leaf's accept-list is for the leaf's own type. */
  method AssignValues(ids: seq<Identity>, ty: RefType, byLeaf: Option<set<nat>>, byBase: map<nat, set<nat>>)
    returns (out: RefType)
    requires Linked(ids) && ListsDerive(ids, byBase) && BasesExist(ids, ty)
    requires byLeaf.Some? ==> forall x :: x in byLeaf.value ==> FromEvery(ids, ty.bases, x)
    ensures SameButValues(out, ty) && ValuesDerive(ids, out)
    ensures !ty.isRef ==> out.values == ty.values
    ensures ty.isRef && byLeaf.Some? ==> out.values == Some(byLeaf.value)
    ensures ty.isRef && byLeaf.None? ==> out.values.Some? && forall x :: x in out.values.value <==>
      ty.bases != [] && forall b :: b in ty.bases ==> if b in byBase then x in byBase[b] else DerivedFrom(ids, x, b)
    decreases ty
  {
    var values := ty.values;
    if ty.isRef {
      var chosen := AssignIdentityValues(ids, ty.bases, byLeaf, byBase);
      values := Some(chosen);
    }
    var members: seq<RefType> := [];
    for i := 0 to |ty.members|
      invariant |members| == i
      invariant forall k :: 0 <= k < i ==> SameButValues(members[k], ty.members[k]) && ValuesDerive(ids, members[k])
    {
      var member := AssignValues(ids, ty.members[i], None, byBase);
      members := members + [member];
    }
    out := RefType(ty.isRef, ty.bases, values, members);
  }

  /** Some part of the type has `x` among its values. */
  predicate HasValue(ty: RefType, x: nat) {
    (ty.values.Some? && x in ty.values.value) || exists i :: 0 <= i < |ty.members| && HasValue(ty.members[i], x)
  }

  /** The identities a type uses. */
  method CollectValues(ty: RefType) returns (out: set<nat>)
    ensures forall x :: x in out <==> HasValue(ty, x)
    decreases ty
  {
    out := if ty.values.Some? then ty.values.value else {};
    for i := 0 to |ty.members|
      invariant forall x :: x in out <==>
        (ty.values.Some? && x in ty.values.value) || exists k :: 0 <= k < i && HasValue(ty.members[k], x)
    {
      var more := CollectValues(ty.members[i]);
      out := out + more;
    }
  }

  // ---------------------------------------------------------------- the catalog's form and its check

  /** A type in the catalog, identities by qualified name. */
  datatype TypeDoc = TypeDoc(isRef: bool, bases: seq<string>, values: Option<seq<string>>, members: seq<TypeDoc>)

  datatype Complaint = NoValues | NotSorted | NotFound(name: string) | NotDerived(name: string)

  /** Dictionary order. */
  predicate Less(a: string, b: string) {
    b != "" && (a == "" || a[0] < b[0] || (a[0] == b[0] && Less(a[1..], b[1..])))
  }

  predicate StrictlySorted(names: seq<string>) {
    forall i :: 0 <= i < |names| - 1 ==> Less(names[i], names[i + 1])
  }

  /** What the catalog promises of identityref values, in every member of a union. */
  ghost predicate Consistent(c: Catalog, doc: TypeDoc) {
    && (doc.isRef ==>
         && doc.values.Some? && StrictlySorted(doc.values.value)
         && forall k :: 0 <= k < |doc.values.value| ==> NameDerives(c, doc.values.value[k], doc.bases))
    && (forall i :: 0 <= i < |doc.members| ==> Consistent(c, doc.members[i]))
  }

  ghost predicate NameDerives(c: Catalog, name: string, bases: seq<string>) {
    name in c && forall b :: b in bases ==> HasBase(c, name, b)
  }

  method DerivesFromAll(c: Catalog, name: string, bases: seq<string>) returns (r: bool)
    ensures r <==> forall b :: b in bases ==> HasBase(c, name, b)
  {
    for i := 0 to |bases|
      invariant forall b :: b in bases[..i] ==> HasBase(c, name, b)
    {
      assert bases[i] in bases && bases[..i + 1] == bases[..i] + [bases[i]];
      var one := DerivesFrom(c, name, bases[i]);
      if !one { return false; }
    }
    assert bases[..|bases|] == bases;
    return true;
  }

  method InOrder(names: seq<string>) returns (r: bool)
    ensures r <==> StrictlySorted(names)
  {
    for i := 0 to if |names| == 0 then 0 else |names| - 1
      invariant forall k :: 0 <= k < i ==> Less(names[k], names[k + 1])
    {
      if !Less(names[i], names[i + 1]) { return false; }
    }
    return true;
  }

  /** Complaints about the values of one identityref. */
  method CheckValues(c: Catalog, names: seq<string>, bases: seq<string>) returns (errors: seq<Complaint>)
    ensures errors == [] <==>
      StrictlySorted(names) && forall k :: 0 <= k < |names| ==> NameDerives(c, names[k], bases)
  {
    errors := [];
    var sorted := InOrder(names);
    if !sorted { errors := [NotSorted]; }
    for i := 0 to |names|
      invariant errors == [] <==> sorted && forall k :: 0 <= k < i ==> NameDerives(c, names[k], bases)
    {
      if names[i] !in c {
        errors := errors + [NotFound(names[i])];
      } else {
        var derives := DerivesFromAll(c, names[i], bases);
        if !derives { errors := errors + [NotDerived(names[i])]; }
      }
    }
  }

  /** The catalog check of a type: no complaint exactly when the type is consistent with the catalog's identities. */
  method CheckIdentityrefValues(c: Catalog, doc: TypeDoc) returns (errors: seq<Complaint>)
    ensures errors == [] <==> Consistent(c, doc)
    decreases doc
  {
    errors := [];
    if doc.isRef {
      if doc.values.None? {
        errors := [NoValues];
      } else {
        errors := CheckValues(c, doc.values.value, doc.bases);
      }
    }
    ghost var own := errors == [];
    for i := 0 to |doc.members|
      invariant errors == [] <==> own && forall k :: 0 <= k < i ==> Consistent(c, doc.members[k])
    {
      var more := CheckIdentityrefValues(c, doc.members[i]);
      errors := errors + more;
    }
  }

  // ---------------------------------------------------------------- from the builder to the check

  /** `doc` is the catalog's form of `ty`: names for identities, the values sorted. */
  ghost predicate Documents(doc: TypeDoc, ty: RefType, name: nat -> string) {
    && doc.isRef == ty.isRef && doc.bases == Names(ty.bases, name) && |doc.members| == |ty.members|
    && doc.values.Some? == ty.values.Some?
    && (ty.values.Some? ==> StrictlySorted(doc.values.value) && ListsNames(doc.values.value, ty.values.value, name))
    && (forall i :: 0 <= i < |ty.members| ==> Documents(doc.members[i], ty.members[i], name))
  }

  ghost predicate ListsNames(names: seq<string>, values: set<nat>, name: nat -> string) {
    forall k :: 0 <= k < |names| ==> NamesOne(names[k], values, name)
  }

  ghost predicate NamesOne(n: string, values: set<nat>, name: nat -> string) {
    exists x: nat :: x in values && name(x) == n
  }

  /** The catalog keeps every identity the type uses. */
  ghost predicate Keeps(kept: set<nat>, ty: RefType) {
    forall x: nat :: HasValue(ty, x) ==> x in kept
  }

  lemma {:induction false} ValuePasses(c: Catalog, ids: seq<Identity>, kept: set<nat>, name: nat -> string, bases: seq<nat>, x: nat)
    requires Describes(c, ids, kept, name) && Linked(ids) && x in kept && FromEvery(ids, bases, x)
    requires forall b :: b in bases ==> b < |ids|
    ensures NameDerives(c, name(x), Names(bases, name))
  {
    forall n | n in Names(bases, name) ensures HasBase(c, name(x), n) {
      var k :| 0 <= k < |bases| && name(bases[k]) == n;
      assert bases[k] in bases;
      DirectionsAgree(c, ids, kept, name, x, bases[k]);
    }
  }

  /**
   * Whatever accept-lists narrowed them, the value sets the builder assigned pass the catalog's check, in a catalog that
   * keeps the identities in use and all above them.
   */
  lemma {:induction false} AssignedValuesPass(c: Catalog, ids: seq<Identity>, kept: set<nat>, name: nat -> string,
                                              ty: RefType, doc: TypeDoc)
    requires Describes(c, ids, kept, name) && Linked(ids) && BasesExist(ids, ty)
    requires ValuesDerive(ids, ty) && Keeps(kept, ty) && Documents(doc, ty, name)
    ensures Consistent(c, doc)
    decreases ty
  {
    if ty.isRef {
      var names := doc.values.value;
      assert ListsNames(names, ty.values.value, name);
      forall k | 0 <= k < |names| ensures NameDerives(c, names[k], doc.bases) {
        assert NamesOne(names[k], ty.values.value, name);
        var x: nat :| x in ty.values.value && name(x) == names[k];
        assert HasValue(ty, x);
        ValuePasses(c, ids, kept, name, ty.bases, x);
      }
    }
    forall i | 0 <= i < |ty.members| ensures Consistent(c, doc.members[i]) {
      assert Keeps(kept, ty.members[i]) by {
        forall x: nat | HasValue(ty.members[i], x) ensures x in kept { assert HasValue(ty, x); }
      }
      AssignedValuesPass(c, ids, kept, name, ty.members[i], doc.members[i]);
    }
  }

  /** The identities a catalog keeps include those every type uses, and are closed under base, as the check relies on. */
  method KeptIdentities(ids: seq<Identity>, types: seq<RefType>, baseSeeds: seq<nat>) returns (kept: set<nat>)
    requires Linked(ids) && (forall b :: b in baseSeeds ==> b < |ids|)
    requires forall i, x: nat :: 0 <= i < |types| && HasValue(types[i], x) ==> x < |ids|
    ensures forall i :: 0 <= i < |types| ==> Keeps(kept, types[i])
    ensures Closed(Upward(ids), kept) && forall b :: b in baseSeeds ==> b in kept
  {
    var seeds: seq<nat> := baseSeeds;
    for i := 0 to |types|
      invariant forall s :: s in seeds ==> s < |ids|
      invariant forall b :: b in baseSeeds ==> b in seeds
      invariant forall k, x: nat :: 0 <= k < i && HasValue(types[k], x) ==> x in seeds
    {
      var used := CollectValues(types[i]);
      ghost var before := seeds;
      while used != {}
        invariant (forall s :: s in before ==> s in seeds) && forall x: nat :: HasValue(types[i], x) ==> x in used || x in seeds
        invariant forall x: nat :: x in used ==> HasValue(types[i], x)
        invariant forall s :: s in seeds ==> s < |ids|
        decreases |used|
      {
        var x :| x in used;
        seeds := seeds + [x];
        used := used - {x};
      }
    }
    kept := ReachableIdentities(ids, seeds);
  }
}
