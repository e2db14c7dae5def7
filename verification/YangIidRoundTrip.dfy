// Printing and parsing instance identifiers: a canonical path goes to its SID form and back to the same path.

module YangIidRoundTrip {
  import opened Bytes
  import opened YangSchema
  import opened YangJson
  import opened YangBody
  import opened YangText
  import opened YangIid
  import opened YangCanon
  import opened YangIdentity
  import C = Cbor
  import L = YangLeaf

  /** A node on the way, with values for its first keys. */
  datatype Step = Step(node: nat, vals: seq<string>)

  /** A key's text as decoding prints it: as for leafs of its type, and plain numbers also for the short integers. */
  predicate KeySpelled(ty: Type, raw: string) {
    match ty.builtin
    case Int8 | Int16 | Int32 | Uint8 | Uint16 | Uint32 =>
      CanonNumber(raw) && ParseInt(raw, L.I64_MIN, L.I64_MAX).Some?
    case Boolean | Empty => true
    case _ => L.Spelled(ty, JStr(raw))
  }

  /** Key values that are accepted and need no quoting. */
  predicate KeyOk(cx: Context, key: nat, raw: string)
    requires Sound(cx.s) && key < |cx.s.nodes|
  {
    NoBrackets(raw) && cx.s.nodes[key].ty.Some? && EncKey(cx, key, raw).Some?
  }

  /** Spelled as decoding prints them. */
  predicate ValsSpelled(s: Schema, ks: seq<nat>, vals: seq<string>) {
    |vals| <= |ks| && forall i :: 0 <= i < |vals| ==>
      ks[i] < |s.nodes| && s.nodes[ks[i]].ty.Some? && L.TypeFit(s.identities, s.nodes[ks[i]].ty.value)
      && KeySpelled(s.nodes[ks[i]].ty.value, vals[i])
  }

  predicate PathSpelled(s: Schema, steps: seq<Step>) {
    forall i :: 0 <= i < |steps| ==>
      steps[i].node < |s.nodes| && ValsSpelled(s, s.nodes[steps[i].node].keys, steps[i].vals)
  }

  /** The leaf encoding is the schema's own. */
  ghost predicate OwnLeaves(cx: Context) {
    cx.leaf == L.Codec(cx.s.identities)
  }

  lemma {:induction false} SignedNumber(raw: string, n: int)
    requires ParseInt(raw, 0, L.U64_MAX) == Some(n) && n <= L.I64_MAX
    ensures ParseInt(raw, L.I64_MIN, L.I64_MAX) == Some(n)
  {
  }

  lemma {:induction false} UnsignedNumber(raw: string, n: int)
    requires ParseInt(raw, 0, L.U64_MAX) == Some(n) && ParseInt(raw, L.I64_MIN, L.I64_MAX).Some?
    ensures n <= L.I64_MAX
  {
  }

  lemma {:induction false} IntKeyExactly(ty: Type, raw: string, lo: int, hi: int)
    requires (lo == L.I64_MIN && hi == L.I64_MAX) || (lo == 0 && hi == L.U64_MAX)
    requires ParseInt(raw, lo, hi).Some? && L.EncInt(ty, JNum(ParseInt(raw, lo, hi).value)).Some?
    ensures L.EncInt(ty, JNum(ParseInt(raw, lo, hi).value)).value.Integer?
    ensures Print(AsI64(L.EncInt(ty, JNum(ParseInt(raw, lo, hi).value)).value.i)) == raw <==>
      CanonNumber(raw) && ParseInt(raw, L.I64_MIN, L.I64_MAX).Some?
  {
    var n := ParseInt(raw, lo, hi).value;
    NumberExactly(raw, lo, hi);
    L.IntExactly(ty, JNum(n));
    if n <= L.I64_MAX {
      if lo == 0 { SignedNumber(raw, n); }
    } else {
      if ParseInt(raw, L.I64_MIN, L.I64_MAX).Some? { UnsignedNumber(raw, n); }
      assert AsI64(AsI64(n)) < 0;
    }
  }

  /** Of the key texts that a fit type accepts, decoding prints back exactly those spelled canonically. */
  lemma {:induction false} KeyExactly(ids: seq<Identity>, ty: Type, raw: string)
    requires L.TypeFit(ids, ty) && ConvertKey(ty, raw).Some? && L.TypeToCbor(ids, ty, ConvertKey(ty, raw).value).Some?
    ensures var v := L.TypeToJson(ids, ty, L.TypeToCbor(ids, ty, ConvertKey(ty, raw).value).value);
      (v.Some? && KeyText(v.value) == raw) <==> KeySpelled(ty, raw)
  {
    match ty.builtin
    case Int8 | Int16 | Int32 => IntKeyExactly(ty, raw, L.I64_MIN, L.I64_MAX);
    case Uint8 | Uint16 | Uint32 => IntKeyExactly(ty, raw, 0, L.U64_MAX);
    case Boolean =>
    case Empty =>
      assert ItemsText([JNull]) == "null";
    case _ => L.LeafExactly(ids, ty, JStr(raw));
  }

  /** What the key is on the wire is printed as its text. */
  predicate KeyBack(cx: Context, key: nat, raw: string)
    requires Sound(cx.s) && key < |cx.s.nodes|
  {
    && cx.s.nodes[key].ty.Some? && EncKey(cx, key, raw).Some?
    && var v := cx.leaf.dec(cx.s.nodes[key].ty.value, EncKey(cx, key, raw).value);
      v.Some? && KeyText(v.value) == raw
  }

  lemma {:induction false} KeyReturns(cx: Context, key: nat, raw: string)
    requires Sound(cx.s) && OwnLeaves(cx) && key < |cx.s.nodes| && KeyOk(cx, key, raw)
    requires L.TypeFit(cx.s.identities, cx.s.nodes[key].ty.value) && KeySpelled(cx.s.nodes[key].ty.value, raw)
    ensures KeyBack(cx, key, raw)
  {
    KeyExactly(cx.s.identities, cx.s.nodes[key].ty.value, raw);
  }

  /** Key leafs with a type and distinct local names that need no quoting. */
  predicate KeysOk(s: Schema, ks: seq<nat>)
    requires Sound(s)
  {
    && AllBelow(ks, |s.nodes|)
    && (forall i :: 0 <= i < |ks| ==>
         s.nodes[ks[i]].ty.Some? && NoBrackets(KeyName(s, ks[i])) && '=' !in KeyName(s, ks[i]))
    && (forall i, j :: 0 <= i < j < |ks| ==> KeyName(s, ks[i]) != KeyName(s, ks[j]))
  }

  predicate ValsOk(cx: Context, ks: seq<nat>, vals: seq<string>)
    requires Sound(cx.s) && AllBelow(ks, |cx.s.nodes|)
  {
    |vals| <= |ks| && forall i :: 0 <= i < |vals| ==> KeyOk(cx, ks[i], vals[i])
  }

  predicate NameOk(name: string) {
    name != "" && NoBrackets(name) && '/' !in name
  }

  /** A step that can be printed without ambiguity. */
  predicate StepOk(cx: Context, st: Step)
    requires Sound(cx.s)
  {
    && st.node < |cx.s.nodes| && NameOk(cx.s.nodes[st.node].name)
    && KeysOk(cx.s, cx.s.nodes[st.node].keys) && ValsOk(cx, cx.s.nodes[st.node].keys, st.vals)
  }

  predicate NoVals(steps: seq<Step>) {
    forall i :: 0 <= i < |steps| ==> steps[i].vals == []
  }

  /** Printable steps whose values fill the lists outermost first, without a gap. */
  predicate PathOk(cx: Context, steps: seq<Step>)
    requires Sound(cx.s)
    decreases |steps|
  {
    steps == []
    || (&& StepOk(cx, steps[0])
        && (|steps[0].vals| < |cx.s.nodes[steps[0].node].keys| ==> NoVals(steps[1..]))
        && PathOk(cx, steps[1..]))
  }

  /** Each step goes to the data child its name stands for, seen from the one before. */
  predicate DataPath(cx: Context, cur: Scope, steps: seq<Step>)
    requires Sound(cx.s) && ScopeOk(cx.s, cur)
    decreases |steps|
  {
    steps == []
    || (&& steps[0].node < |cx.s.nodes|
        && FindSid(cx.s, cur, cx.s.nodes[steps[0].node].name).Some?
        && FindSid(cx.s, cur, cx.s.nodes[steps[0].node].name).value.0 == steps[0].node
        && DataPath(cx, At(steps[0].node), steps[1..]))
  }

  // ---------------------------------------------------------------- text of a path

  function Selectors(s: Schema, ks: seq<nat>, vals: seq<string>): string
    requires Sound(s) && AllBelow(ks, |s.nodes|) && |vals| <= |ks|
    decreases |vals|
  {
    if vals == [] then "" else Selector(KeyName(s, ks[0]), vals[0]) + Selectors(s, ks[1..], vals[1..])
  }

  function StepText(s: Schema, st: Step): string
    requires Sound(s) && st.node < |s.nodes| && AllBelow(s.nodes[st.node].keys, |s.nodes|)
    requires |st.vals| <= |s.nodes[st.node].keys|
  {
    s.nodes[st.node].name + Selectors(s, s.nodes[st.node].keys, st.vals)
  }

  predicate Printable(s: Schema, steps: seq<Step>)
    requires Sound(s)
  {
    forall i :: 0 <= i < |steps| ==>
      steps[i].node < |s.nodes| && AllBelow(s.nodes[steps[i].node].keys, |s.nodes|)
      && |steps[i].vals| <= |s.nodes[steps[i].node].keys|
  }

  lemma {:induction false} PrintableRest(s: Schema, steps: seq<Step>)
    requires Sound(s) && Printable(s, steps) && steps != []
    ensures Printable(s, steps[1..])
  {
  }

  function PathString(s: Schema, steps: seq<Step>): string
    requires Sound(s) && Printable(s, steps)
    decreases |steps|
  {
    if steps == [] then ""
    else
      PrintableRest(s, steps);
      "/" + StepText(s, steps[0]) + PathString(s, steps[1..])
  }

  function Texts(s: Schema, steps: seq<Step>): seq<string>
    requires Sound(s) && Printable(s, steps)
    decreases |steps|
  {
    if steps == [] then []
    else
      PrintableRest(s, steps);
      [StepText(s, steps[0])] + Texts(s, steps[1..])
  }

  /** The key values of a step on the wire. */
  function EncKeys(cx: Context, ks: seq<nat>, vals: seq<string>): seq<C.Value>
    requires Sound(cx.s) && AllBelow(ks, |cx.s.nodes|) && ValsOk(cx, ks, vals)
    decreases |vals|
  {
    if vals == [] then []
    else
      ValsRest(cx, ks, vals);
      [EncKey(cx, ks[0], vals[0]).value] + EncKeys(cx, ks[1..], vals[1..])
  }

  lemma {:induction false} ValsRest(cx: Context, ks: seq<nat>, vals: seq<string>)
    requires Sound(cx.s) && AllBelow(ks, |cx.s.nodes|) && ValsOk(cx, ks, vals) && ks != []
    ensures AllBelow(ks[1..], |cx.s.nodes|)
    ensures vals != [] ==> ValsOk(cx, ks[1..], vals[1..])
  {
    if vals != [] {
      forall i | 0 <= i < |vals[1..]| ensures KeyOk(cx, ks[1..][i], vals[1..][i]) {
        assert KeyOk(cx, ks[i + 1], vals[i + 1]);
      }
    }
  }

  function StepKeys(cx: Context, st: Step): seq<C.Value>
    requires Sound(cx.s) && StepOk(cx, st)
  {
    EncKeys(cx, cx.s.nodes[st.node].keys, st.vals)
  }

  function PathKeys(cx: Context, steps: seq<Step>): seq<C.Value>
    requires Sound(cx.s) && PathOk(cx, steps)
    decreases |steps|
  {
    if steps == [] then [] else StepKeys(cx, steps[0]) + PathKeys(cx, steps[1..])
  }

  // ---------------------------------------------------------------- parsing what was printed

  lemma {:induction false} SelectorIsWhole(name: string, value: string)
    requires NoBrackets(name) && NoBrackets(value)
    ensures Whole(Selector(name, value), 0) && EndDepth(Selector(name, value), 0) == 0
  {
    var inner := name + "='" + value + "'";
    PlainIsWhole(inner, 1);
    var tail := inner + "]";
    assert "]"[1..] == "";
    assert Whole("]", 1) && EndDepth("]", 1) == EndDepth("", 0);
    WholeConcat(inner, "]", 1);
    assert Selector(name, value) == "[" + tail && ("[" + tail)[1..] == tail;
  }

  /** Values that need no quoting. */
  predicate PlainVals(vals: seq<string>) {
    forall i :: 0 <= i < |vals| ==> NoBrackets(vals[i])
  }

  lemma {:induction false} ValsArePlain(cx: Context, ks: seq<nat>, vals: seq<string>)
    requires Sound(cx.s) && AllBelow(ks, |cx.s.nodes|) && ValsOk(cx, ks, vals)
    ensures PlainVals(vals)
  {
    forall i | 0 <= i < |vals| ensures NoBrackets(vals[i]) {
      assert KeyOk(cx, ks[i], vals[i]);
    }
  }

  lemma {:induction false} SelectorsAreWhole(s: Schema, ks: seq<nat>, vals: seq<string>)
    requires Sound(s) && KeysOk(s, ks) && |vals| <= |ks| && PlainVals(vals)
    ensures Whole(Selectors(s, ks, vals), 0) && EndDepth(Selectors(s, ks, vals), 0) == 0
    decreases |vals|
  {
    if vals != [] {
      KeysRest(s, ks);
      SelectorIsWhole(KeyName(s, ks[0]), vals[0]);
      assert forall i :: 0 <= i < |vals[1..]| ==> vals[1..][i] == vals[i + 1];
      SelectorsAreWhole(s, ks[1..], vals[1..]);
      WholeConcat(Selector(KeyName(s, ks[0]), vals[0]), Selectors(s, ks[1..], vals[1..]), 0);
    }
  }

  lemma {:induction false} KeysRest(s: Schema, ks: seq<nat>)
    requires Sound(s) && KeysOk(s, ks) && ks != []
    ensures KeysOk(s, ks[1..])
    ensures forall i :: 0 <= i < |ks[1..]| ==> KeyName(s, ks[1..][i]) != KeyName(s, ks[0])
  {
    assert forall i :: 0 <= i < |ks[1..]| ==> ks[1..][i] == ks[i + 1];
  }

  lemma {:induction false} StepTextIsWhole(cx: Context, st: Step)
    requires Sound(cx.s) && StepOk(cx, st)
    ensures Whole(StepText(cx.s, st), 0) && EndDepth(StepText(cx.s, st), 0) == 0 && StepText(cx.s, st) != ""
  {
    var name, ks := cx.s.nodes[st.node].name, cx.s.nodes[st.node].keys;
    PlainIsWhole(name, 0);
    ValsArePlain(cx, ks, st.vals);
    SelectorsAreWhole(cx.s, ks, st.vals);
    WholeConcat(name, Selectors(cx.s, ks, st.vals), 0);
  }

  /** The printed path splits into the texts of its steps. */
  lemma {:induction false} PathSplits(cx: Context, steps: seq<Step>)
    requires Sound(cx.s) && PathOk(cx, steps) && Printable(cx.s, steps)
    ensures SplitOutside(PathString(cx.s, steps), 0, "") == Texts(cx.s, steps)
    ensures steps != [] ==> PathString(cx.s, steps) != "" && PathString(cx.s, steps)[0] == '/'
    decreases |steps|
  {
    if steps != [] {
      PrintableRest(cx.s, steps);
      var text, rest := StepText(cx.s, steps[0]), PathString(cx.s, steps[1..]);
      StepTextIsWhole(cx, steps[0]);
      PathSplits(cx, steps[1..]);
      CutAtSlash(text, rest);
    }
  }

  lemma {:induction false} CutAtSlash(text: string, rest: string)
    requires Whole(text, 0) && EndDepth(text, 0) == 0 && text != "" && (rest != "" ==> rest[0] == '/')
    ensures SplitOutside("/" + text + rest, 0, "") == [text] + SplitOutside(rest, 0, "")
  {
    var s := "/" + text + rest;
    assert s[1..] == text + rest;
    WholeAhead(text, rest, 0, "");
    assert "" + text == text;
    assert SplitOutside(s, 0, "") == [] + SplitOutside(text + rest, 0, "");
    if rest != "" {
      assert SplitOutside(rest, 0, text) == [text] + SplitOutside(rest[1..], 0, "");
      assert SplitOutside(rest, 0, "") == [] + SplitOutside(rest[1..], 0, "");
    }
  }

  function Pairs(s: Schema, ks: seq<nat>, vals: seq<string>): seq<(string, string)>
    requires Sound(s) && AllBelow(ks, |s.nodes|) && |vals| <= |ks|
    decreases |vals|
  {
    if vals == [] then [] else [(KeyName(s, ks[0]), vals[0])] + Pairs(s, ks[1..], vals[1..])
  }

  lemma {:induction false} UnquoteQuoted(v: string)
    ensures Unquote(TrimEnd(TrimStart("'" + v + "'"))) == v
  {
    var q := "'" + v + "'";
    assert !IsSpace(q[0]) && !IsSpace(q[|q| - 1]);
    assert TrimStart(q) == q && TrimEnd(q) == q;
    assert q[1..|q| - 1] == v;
  }

  lemma {:induction false} OneSelector(name: string, value: string, after: string)
    requires NoBrackets(name) && '=' !in name && NoBrackets(value)
    ensures SplitOnce(name + "='" + value + "']" + after, ']') == Some((name + "='" + value + "'", after))
    ensures SplitOnce(name + "='" + value + "'", '=') == Some((name, "'" + value + "'"))
  {
    var inner := name + "='" + value + "'";
    assert ']' !in inner;
    SplitOnceAt(inner, ']', after);
    assert inner + [']'] + after == name + "='" + value + "']" + after;
    SplitOnceAt(name, '=', "'" + value + "'");
    assert name + ['='] + ("'" + value + "'") == inner;
  }

  /** Selectors parse back, from just behind the first opening bracket on. */
  lemma {:induction false} SelectorsParse(s: Schema, ks: seq<nat>, vals: seq<string>)
    requires Sound(s) && KeysOk(s, ks) && |vals| <= |ks| && PlainVals(vals) && vals != []
    ensures Selectors(s, ks, vals)[0] == '['
    ensures ParseKeys(Selectors(s, ks, vals)[1..]) == Some(Pairs(s, ks, vals))
    decreases |vals|
  {
    hide TrimStart, TrimEnd, Unquote, KeyName;
    KeysRest(s, ks);
    assert forall i :: 0 <= i < |vals[1..]| ==> vals[1..][i] == vals[i + 1];
    var name, value, after := KeyName(s, ks[0]), vals[0], Selectors(s, ks[1..], vals[1..]);
    var all := Selectors(s, ks, vals);
    assert all[1..] == name + "='" + value + "']" + after;
    OneSelector(name, value, after);
    UnquoteQuoted(value);
    if vals[1..] == [] {
      assert after == "" && SplitOnce("", '[') == None;
      assert [(name, value)] + [] == [(name, value)];
    } else {
      SelectorsParse(s, ks[1..], vals[1..]);
      SplitOnceAt("", '[', after[1..]);
      assert "" + ['['] + after[1..] == after;
    }
  }

  lemma {:induction false} SegmentParses(s: Schema, name: string, ks: seq<nat>, vals: seq<string>)
    requires Sound(s) && KeysOk(s, ks) && |vals| <= |ks| && PlainVals(vals) && NoBrackets(name)
    ensures ParseSegment(name + Selectors(s, ks, vals)) == Some(Segment(name, Pairs(s, ks, vals)))
  {
    hide ParseKeys;
    var sel := Selectors(s, ks, vals);
    if vals == [] {
      assert name + sel == name;
      NoSplit(name, '[');
    } else {
      SelectorsParse(s, ks, vals);
      SplitOnceAt(name, '[', sel[1..]);
      assert name + ['['] + sel[1..] == name + sel;
    }
  }

  lemma {:induction false} StepParses(cx: Context, st: Step)
    requires Sound(cx.s) && StepOk(cx, st)
    ensures ParseSegment(StepText(cx.s, st)) ==
      Some(Segment(cx.s.nodes[st.node].name, Pairs(cx.s, cx.s.nodes[st.node].keys, st.vals)))
  {
    hide ParseSegment, Selectors, Pairs;
    ValsArePlain(cx, cx.s.nodes[st.node].keys, st.vals);
    SegmentParses(cx.s, cx.s.nodes[st.node].name, cx.s.nodes[st.node].keys, st.vals);
  }

  lemma {:induction false} NoSplit(s: string, c: char)
    requires c !in s
    ensures SplitOnce(s, c) == None
    decreases |s|
  {
    if s != "" { NoSplit(s[1..], c); }
  }

  // ---------------------------------------------------------------- key values

  lemma {:induction false} GivenOfPairs(s: Schema, ks: seq<nat>, vals: seq<string>, j: nat)
    requires Sound(s) && KeysOk(s, ks) && |vals| <= |ks| && j < |ks|
    ensures Given(Pairs(s, ks, vals), KeyName(s, ks[j])) == if j < |vals| then Some(vals[j]) else None
    decreases |vals|
  {
    if vals != [] {
      KeysRest(s, ks);
      var rest := Pairs(s, ks[1..], vals[1..]);
      assert ([(KeyName(s, ks[0]), vals[0])] + rest)[1..] == rest;
      if j > 0 {
        GivenOfPairs(s, ks[1..], vals[1..], j - 1);
        assert ks[1..][j - 1] == ks[j];
      }
    }
  }

  lemma {:induction false} PairsKnown(s: Schema, ks: seq<nat>, vals: seq<string>)
    requires Sound(s) && AllBelow(ks, |s.nodes|) && |vals| <= |ks|
    ensures AllKnown(s, ks, Pairs(s, ks, vals))
    decreases |vals|
  {
    if vals != [] {
      PairsKnown(s, ks[1..], vals[1..]);
      var rest := Pairs(s, ks[1..], vals[1..]);
      forall i | 0 <= i < |Pairs(s, ks, vals)| ensures IsName(s, ks, Pairs(s, ks, vals)[i].0) {
        if i > 0 {
          assert Pairs(s, ks, vals)[i] == rest[i - 1] && IsName(s, ks[1..], rest[i - 1].0);
          var j :| 0 <= j < |ks[1..]| && KeyName(s, ks[1..][j]) == rest[i - 1].0;
          assert ks[1..][j] == ks[j + 1];
        } else {
          assert KeyName(s, ks[0]) == Pairs(s, ks, vals)[0].0;
        }
      }
    }
  }

  /** Values are given exactly for the first keys. */
  predicate GivenFirst(s: Schema, ks: seq<nat>, vals: seq<string>, given: seq<(string, string)>)
    requires Sound(s) && AllBelow(ks, |s.nodes|)
  {
    forall j :: 0 <= j < |ks| ==> Given(given, KeyName(s, ks[j])) == if j < |vals| then Some(vals[j]) else None
  }

  lemma {:induction false} PickFirst(cx: Context, ks: seq<nat>, vals: seq<string>, given: seq<(string, string)>)
    requires Sound(cx.s) && AllBelow(ks, |cx.s.nodes|) && ValsOk(cx, ks, vals) && GivenFirst(cx.s, ks, vals, given)
    ensures PickKeys(cx, ks, given) == Some(EncKeys(cx, ks, vals))
    decreases |ks|
  {
    if ks != [] {
      ValsRest(cx, ks, vals);
      var vs := if vals == [] then [] else vals[1..];
      assert forall j :: 0 <= j < |ks[1..]| ==> ks[1..][j] == ks[j + 1];
      assert GivenFirst(cx.s, ks[1..], vs, given) by {
        forall j | 0 <= j < |ks[1..]|
          ensures Given(given, KeyName(cx.s, ks[1..][j])) == if j < |vs| then Some(vs[j]) else None
        {
          assert Given(given, KeyName(cx.s, ks[j + 1])) == if j + 1 < |vals| then Some(vals[j + 1]) else None;
        }
      }
      PickFirst(cx, ks[1..], vs, given);
      if vals != [] { assert KeyOk(cx, ks[0], vals[0]) && Given(given, KeyName(cx.s, ks[0])) == Some(vals[0]); }
    }
  }

  lemma {:induction false} StepResolves(cx: Context, cur: Scope, st: Step)
    requires Sound(cx.s) && ScopeOk(cx.s, cur) && StepOk(cx, st) && DataPath(cx, cur, [st])
    ensures ResolveSegment(cx, cur, StepText(cx.s, st)) ==
      Some(Resolved(st.node, cx.s.nodes[st.node].sid.value, StepKeys(cx, st)))
  {
    var ks := cx.s.nodes[st.node].keys;
    var given := Pairs(cx.s, ks, st.vals);
    StepParses(cx, st);
    PairsKnown(cx.s, ks, st.vals);
    forall j | 0 <= j < |ks|
      ensures Given(given, KeyName(cx.s, ks[j])) == if j < |st.vals| then Some(st.vals[j]) else None
    {
      GivenOfPairs(cx.s, ks, st.vals, j);
    }
    PickFirst(cx, ks, st.vals, given);
  }

  lemma {:induction false} StepsResolve(cx: Context, cur: Scope, steps: seq<Step>, sid: i64, keys: seq<C.Value>)
    requires Sound(cx.s) && ScopeOk(cx.s, cur) && PathOk(cx, steps) && DataPath(cx, cur, steps) && Printable(cx.s, steps)
    requires steps != []
    ensures var last := steps[|steps| - 1].node;
      && cx.s.nodes[last].sid.Some?
      && ResolveSegments(cx, cur, Texts(cx.s, steps), sid, keys)
         == Some(Resolved(last, cx.s.nodes[last].sid.value, keys + PathKeys(cx, steps)))
    decreases |steps|
  {
    hide StepOk, ResolveSegment, StepText;
    PrintableRest(cx.s, steps);
    StepResolves(cx, cur, steps[0]);
    var st, rest := steps[0], steps[1..];
    var texts := Texts(cx.s, rest);
    assert ([StepText(cx.s, st)] + texts)[1..] == texts;
    var keys1, sid1 := keys + StepKeys(cx, st), cx.s.nodes[st.node].sid.value;
    if rest == [] {
      assert StepKeys(cx, st) + [] == StepKeys(cx, st);
      assert ResolveSegments(cx, At(st.node), [], sid1, keys1) == Some(Resolved(st.node, sid1, keys1));
    } else {
      StepsResolve(cx, At(st.node), rest, sid1, keys1);
      SeqAssoc(keys, StepKeys(cx, st), PathKeys(cx, rest));
    }
  }

  // ---------------------------------------------------------------- printing what was resolved

  predicate ValsBack(cx: Context, ks: seq<nat>, vals: seq<string>)
    requires Sound(cx.s) && AllBelow(ks, |cx.s.nodes|)
  {
    |vals| <= |ks| && forall i :: 0 <= i < |vals| ==> KeyBack(cx, ks[i], vals[i])
  }

  lemma {:induction false} ValsReturn(cx: Context, ks: seq<nat>, vals: seq<string>)
    requires Sound(cx.s) && OwnLeaves(cx) && AllBelow(ks, |cx.s.nodes|) && ValsOk(cx, ks, vals)
    requires ValsSpelled(cx.s, ks, vals)
    ensures ValsBack(cx, ks, vals)
  {
    forall i | 0 <= i < |vals| ensures KeyBack(cx, ks[i], vals[i]) {
      assert KeyOk(cx, ks[i], vals[i]);
      KeyReturns(cx, ks[i], vals[i]);
    }
  }

  lemma {:induction false} BackRest(cx: Context, ks: seq<nat>, vals: seq<string>)
    requires Sound(cx.s) && AllBelow(ks, |cx.s.nodes|) && ValsBack(cx, ks, vals) && vals != []
    ensures KeyBack(cx, ks[0], vals[0]) && AllBelow(ks[1..], |cx.s.nodes|) && ValsBack(cx, ks[1..], vals[1..])
  {
    forall i | 0 <= i < |vals[1..]| ensures KeyBack(cx, ks[1..][i], vals[1..][i]) {
      assert KeyBack(cx, ks[i + 1], vals[i + 1]);
    }
  }

  /** The selectors of a step, taking its values from the front of all that are left. */
  lemma {:induction false} SelectorsPrint(cx: Context, ks: seq<nat>, vals: seq<string>, more: seq<C.Value>)
    requires Sound(cx.s) && KeysOk(cx.s, ks) && ValsOk(cx, ks, vals) && ValsBack(cx, ks, vals)
    requires |vals| < |ks| ==> more == []
    ensures KeySelectors(cx, ks, EncKeys(cx, ks, vals) + more) == Some((Selectors(cx.s, ks, vals), more))
    decreases |ks|
  {
    hide KeyOk, KeyBack, KeyText, Selector, EncKey;
    if ks == [] {
      assert [] + more == more;
    } else if vals == [] {
      assert [] + more == [];
    } else {
      BackRest(cx, ks, vals);
      ValsRest(cx, ks, vals);
      KeysRest(cx.s, ks);
      SelectorsPrint(cx, ks[1..], vals[1..], more);
      var c := EncKey(cx, ks[0], vals[0]).value;
      var tail := EncKeys(cx, ks[1..], vals[1..]) + more;
      assert EncKeys(cx, ks, vals) + more == [c] + tail;
      PrintOneKey(cx, ks[0], ks[1..], c, tail, vals[0], Selectors(cx.s, ks[1..], vals[1..]), more);
      assert [ks[0]] + ks[1..] == ks;
    }
  }

  lemma {:induction false} PrintOneKey(cx: Context, k: nat, ks: seq<nat>, c: C.Value, keys: seq<C.Value>, raw: string,
                                       text: string, rest: seq<C.Value>)
    requires Sound(cx.s) && AllBelow(ks, |cx.s.nodes|) && AllBelow([k] + ks, |cx.s.nodes|) && k < |cx.s.nodes|
    requires cx.s.nodes[k].ty.Some? && cx.leaf.dec(cx.s.nodes[k].ty.value, c).Some?
    requires KeyText(cx.leaf.dec(cx.s.nodes[k].ty.value, c).value) == raw
    requires KeySelectors(cx, ks, keys) == Some((text, rest))
    ensures KeySelectors(cx, [k] + ks, [c] + keys) == Some((Selector(KeyName(cx.s, k), raw) + text, rest))
  {
    assert ([k] + ks)[1..] == ks && ([c] + keys)[1..] == keys;
  }

  function Nodes(steps: seq<Step>): seq<nat> {
    if steps == [] then [] else [steps[0].node] + Nodes(steps[1..])
  }

  lemma {:induction false} NoValsNoKeys(cx: Context, steps: seq<Step>)
    requires Sound(cx.s) && PathOk(cx, steps) && NoVals(steps)
    ensures PathKeys(cx, steps) == []
    decreases |steps|
  {
    if steps != [] {
      assert forall i :: 0 <= i < |steps[1..]| ==> steps[1..][i] == steps[i + 1];
      NoValsNoKeys(cx, steps[1..]);
    }
  }

  lemma {:induction false} NodesBelow(cx: Context, steps: seq<Step>)
    requires Sound(cx.s) && PathOk(cx, steps)
    ensures AllBelow(Nodes(steps), |cx.s.nodes|)
    decreases |steps|
  {
    if steps != [] { NodesBelow(cx, steps[1..]); }
  }

  lemma {:induction false} PathPrints(cx: Context, steps: seq<Step>)
    requires Sound(cx.s) && OwnLeaves(cx) && PathOk(cx, steps) && PathSpelled(cx.s, steps) && Printable(cx.s, steps)
    requires AllBelow(Nodes(steps), |cx.s.nodes|)
    ensures PathText(cx, Nodes(steps), PathKeys(cx, steps)) == Some(PathString(cx.s, steps))
    decreases |steps|
  {
    if steps != [] {
      var st, rest := steps[0], steps[1..];
      PrintableRest(cx.s, steps);
      assert forall i :: 0 <= i < |rest| ==> rest[i] == steps[i + 1];
      NodesBelow(cx, rest);
      var more := PathKeys(cx, rest);
      if |st.vals| < |cx.s.nodes[st.node].keys| { NoValsNoKeys(cx, rest); }
      ValsReturn(cx, cx.s.nodes[st.node].keys, st.vals);
      SelectorsPrint(cx, cx.s.nodes[st.node].keys, st.vals, more);
      PathPrints(cx, rest);
      PrintFirst(cx, st.node, Nodes(rest), PathKeys(cx, steps), Selectors(cx.s, cx.s.nodes[st.node].keys, st.vals),
                 more, PathString(cx.s, rest));
    }
  }

  lemma {:induction false} PrintFirst(cx: Context, n: nat, chain: seq<nat>, keys: seq<C.Value>, sel: string,
                                      more: seq<C.Value>, path: string)
    requires Sound(cx.s) && n < |cx.s.nodes| && AllBelow(chain, |cx.s.nodes|) && AllBelow([n] + chain, |cx.s.nodes|)
    requires KeySelectors(cx, cx.s.nodes[n].keys, keys) == Some((sel, more)) && PathText(cx, chain, more) == Some(path)
    ensures PathText(cx, [n] + chain, keys) == Some("/" + (cx.s.nodes[n].name + sel) + path)
  {
    assert ([n] + chain)[1..] == chain;
    assert "/" + cx.s.nodes[n].name + sel == "/" + (cx.s.nodes[n].name + sel);
  }

  // ---------------------------------------------------------------- choice and case

  /** The steps that a data path shows: all but choices and cases. */
  function Shown(s: Schema, raw: seq<Step>): seq<Step>
    requires Sound(s) && AllBelow(Nodes(raw), |s.nodes|)
    decreases |raw|
  {
    if raw == [] then []
    else
      NodesTail(s, raw);
      (if Transparent(s.nodes[raw[0].node].kw) then [] else [raw[0]]) + Shown(s, raw[1..])
  }

  lemma {:induction false} NodesTail(s: Schema, raw: seq<Step>)
    requires raw != [] && AllBelow(Nodes(raw), |s.nodes|)
    ensures raw[0].node < |s.nodes| && AllBelow(Nodes(raw[1..]), |s.nodes|)
  {
    assert Nodes(raw)[0] == raw[0].node;
    assert forall i :: 0 <= i < |Nodes(raw[1..])| ==> Nodes(raw[1..])[i] == Nodes(raw)[i + 1];
  }

  /** `raw` is the whole chain of parents of its last node, choices and cases without keys among them. */
  predicate RawPath(cx: Context, raw: seq<Step>)
    requires Sound(cx.s)
  {
    && raw != [] && raw[|raw| - 1].node < |cx.s.nodes| && Nodes(raw) == Chain(cx.s.nodes, raw[|raw| - 1].node)
    && forall i :: 0 <= i < |raw| && raw[i].node < |cx.s.nodes| && Transparent(cx.s.nodes[raw[i].node].kw) ==> raw[i].vals == []
  }

  /** Leaving out choices and cases leaves out no values. */
  lemma {:induction false} ShownKeys(cx: Context, raw: seq<Step>)
    requires Sound(cx.s) && PathOk(cx, raw) && AllBelow(Nodes(raw), |cx.s.nodes|)
    requires forall i :: 0 <= i < |raw| && raw[i].node < |cx.s.nodes| && Transparent(cx.s.nodes[raw[i].node].kw) ==>
      raw[i].vals == []
    ensures PathOk(cx, Shown(cx.s, raw)) && PathKeys(cx, Shown(cx.s, raw)) == PathKeys(cx, raw)
    decreases |raw|
  {
    if raw != [] {
      NodesTail(cx.s, raw);
      assert forall i :: 0 <= i < |raw[1..]| ==> raw[1..][i] == raw[i + 1];
      ShownKeys(cx, raw[1..]);
      var rest := Shown(cx.s, raw[1..]);
      if NoVals(raw[1..]) { ShownNoVals(cx.s, raw[1..]); }
      if Transparent(cx.s.nodes[raw[0].node].kw) {
        EmptyStep(cx, raw);
        assert [] + rest == rest;
      } else {
        StepAhead(cx, raw[0], rest);
      }
    }
  }

  lemma {:induction false} StepAhead(cx: Context, st: Step, rest: seq<Step>)
    requires Sound(cx.s) && StepOk(cx, st) && PathOk(cx, rest)
    requires |st.vals| < |cx.s.nodes[st.node].keys| ==> NoVals(rest)
    ensures PathOk(cx, [st] + rest) && PathKeys(cx, [st] + rest) == StepKeys(cx, st) + PathKeys(cx, rest)
  {
    assert ([st] + rest)[1..] == rest;
  }

  /** A step without values adds none. */
  lemma {:induction false} EmptyStep(cx: Context, raw: seq<Step>)
    requires Sound(cx.s) && raw != [] && PathOk(cx, raw) && raw[0].vals == []
    ensures PathKeys(cx, raw) == PathKeys(cx, raw[1..])
  {
    assert [] + PathKeys(cx, raw[1..]) == PathKeys(cx, raw[1..]);
  }

  lemma {:induction false} ShownNoVals(s: Schema, raw: seq<Step>)
    requires Sound(s) && AllBelow(Nodes(raw), |s.nodes|) && NoVals(raw)
    ensures NoVals(Shown(s, raw))
    decreases |raw|
  {
    if raw != [] {
      NodesTail(s, raw);
      assert forall i :: 0 <= i < |raw[1..]| ==> raw[1..][i] == raw[i + 1];
      ShownNoVals(s, raw[1..]);
    }
  }

  lemma {:induction false} TextsLength(s: Schema, steps: seq<Step>)
    requires Sound(s) && Printable(s, steps)
    ensures |Texts(s, steps)| == |steps|
    decreases |steps|
  {
    if steps != [] {
      PrintableRest(s, steps);
      TextsLength(s, steps[1..]);
    }
  }

  /** The index finds every node that has a SID. */
  predicate IndexFinds(s: Schema, n: nat) {
    n < |s.nodes| && s.nodes[n].sid.Some? && s.nodes[n].sid.value in s.index && s.index[s.nodes[n].sid.value] == n
  }

  /**
   * A canonical data path resolves to its last node, and the SID form decodes to that node and to its raw path, the keys
   * of several nested lists going back to the right list. So the path comes back unchanged exactly when no choice or
   * case is among the node's ancestors.
   */
  lemma {:induction false} PathRoundTrip(cx: Context, raw: seq<Step>, steps: seq<Step>)
    requires Sound(cx.s) && OwnLeaves(cx) && PathOk(cx, raw) && PathSpelled(cx.s, raw) && RawPath(cx, raw)
    requires AllBelow(Nodes(raw), |cx.s.nodes|)
    requires steps == Shown(cx.s, raw) && DataPath(cx, Tree, steps) && steps != []
    requires steps[|steps| - 1] == raw[|raw| - 1] && IndexFinds(cx.s, raw[|raw| - 1].node)
    requires Printable(cx.s, raw) && Printable(cx.s, steps)
    ensures var last := raw[|raw| - 1].node;
      && ResolveIid(cx, PathString(cx.s, steps)).Some?
      && ResolveIid(cx, PathString(cx.s, steps)).value.0 == last
      && DecodeIid(cx, ResolveIid(cx, PathString(cx.s, steps)).value.1) == Some((last, PathString(cx.s, raw)))
    ensures PathString(cx.s, raw) == PathString(cx.s, steps) <==> steps == raw
    ensures steps == raw <==> forall i :: 0 <= i < |raw| ==> raw[i].node < |cx.s.nodes| && !Transparent(cx.s.nodes[raw[i].node].kw)
  {
    hide StepOk, PathText, ResolveSegments, SplitOutside, StepText;
    var last := raw[|raw| - 1].node;
    ShownKeys(cx, raw);
    PathSplits(cx, steps);
    StepsResolve(cx, Tree, steps, 0, []);
    var sid, keys := cx.s.nodes[last].sid.value, PathKeys(cx, steps);
    assert [] + keys == keys;
    SplitOfIid(sid, keys);
    PathPrints(cx, raw);
    PathSplits(cx, raw);
    TextsLength(cx.s, raw);
    TextsLength(cx.s, steps);
    ShownIsAll(cx.s, raw);
  }

  lemma {:induction false} ShownIsAll(s: Schema, raw: seq<Step>)
    requires Sound(s) && AllBelow(Nodes(raw), |s.nodes|)
    ensures |Shown(s, raw)| <= |raw| && (|Shown(s, raw)| == |raw| ==> Shown(s, raw) == raw)
    ensures Shown(s, raw) == raw <==> forall i :: 0 <= i < |raw| ==> raw[i].node < |s.nodes| && !Transparent(s.nodes[raw[i].node].kw)
    decreases |raw|
  {
    if raw != [] {
      NodesTail(s, raw);
      ShownIsAll(s, raw[1..]);
      assert forall i :: 0 <= i < |raw[1..]| ==> raw[1..][i] == raw[i + 1];
      if !Transparent(s.nodes[raw[0].node].kw) {
        assert ([raw[0]] + Shown(s, raw[1..]))[1..] == Shown(s, raw[1..]);
        assert [raw[0]] + raw[1..] == raw;
        assert forall i :: 1 <= i < |raw| ==> raw[i] == raw[1..][i - 1];
      } else {
        assert [] + Shown(s, raw[1..]) == Shown(s, raw[1..]);
      }
    }
  }

  lemma {:induction false} SplitOfIid(sid: i64, keys: seq<C.Value>)
    ensures SplitIid(IidValue(sid, keys)) == Some((sid, keys))
  {
    assert AsI64(sid) == sid;
    assert ([C.Integer(sid)] + keys)[1..] == keys;
  }
}
