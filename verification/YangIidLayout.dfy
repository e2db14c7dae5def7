// Instance identifiers, piece by piece (RFC 9254 section 6.13, RFC 7951 section 6.11): how a path is cut and its selectors
// read, in which order key values stand behind the SID, and how keys are printed.

module YangIidLayout {
  import opened Bytes
  import opened YangBody
  import opened YangIid
  import opened YangIidRoundTrip
  import opened YangJson
  import opened YangSchema
  import opened YangText
  import YangLeafLayout
  import C = Cbor

  // ---------------------------------------------------------------- the SID and the keys

  /** A SID alone, or an array of it and the keys. */
  lemma FormIs(sid: i64, keys: seq<C.Value>)
    ensures IidValue(sid, []) == C.Integer(sid)
    ensures keys != [] ==> IidValue(sid, keys) == C.Array([C.Integer(sid)] + keys)
  {
  }

  /** It is read back in the same form, and a SID keeps its low 64 bits. */
  lemma FormRead(c: C.Value)
    ensures match c
      case Integer(i) => SplitIid(c) == Some((AsI64(i), []))
      case Array(items) =>
        SplitIid(c) == if items != [] && items[0].Integer? then Some((AsI64(items[0].i), items[1..])) else None
      case _ => SplitIid(c) == None
  {
  }

  /** The keys of a path's lists stand in the order of the path, the outermost list's first. */
  lemma {:induction false} KeysOfPath(cx: Context, outer: seq<Step>, inner: seq<Step>)
    requires Sound(cx.s) && PathOk(cx, outer + inner)
    ensures PathOk(cx, outer) && PathOk(cx, inner) && PathKeys(cx, outer + inner) == PathKeys(cx, outer) + PathKeys(cx, inner)
    decreases |outer|
  {
    var all := outer + inner;
    if outer == [] {
      assert all == inner && [] + PathKeys(cx, inner) == PathKeys(cx, inner);
    } else {
      assert all[1..] == outer[1..] + inner && all[0] == outer[0];
      KeysOfPath(cx, outer[1..], inner);
      assert NoVals(all[1..]) ==> NoVals(outer[1..]) by {
        assert forall i :: 0 <= i < |outer[1..]| ==> outer[1..][i] == all[1..][i];
      }
      SeqAssoc(StepKeys(cx, outer[0]), PathKeys(cx, outer[1..]), PathKeys(cx, inner));
    }
  }

  /** The keys of one list stand in the order of its key statement, each as its type encodes it. */
  lemma {:induction false} KeysOfList(cx: Context, ks: seq<nat>, vals: seq<string>)
    requires Sound(cx.s) && AllBelow(ks, |cx.s.nodes|) && ValsOk(cx, ks, vals)
    ensures |EncKeys(cx, ks, vals)| == |vals|
    ensures forall i :: 0 <= i < |vals| ==> EncKey(cx, ks[i], vals[i]) == Some(EncKeys(cx, ks, vals)[i])
    decreases |vals|
  {
    if vals != [] {
      ValsRest(cx, ks, vals);
      KeysOfList(cx, ks[1..], vals[1..]);
      var r := EncKeys(cx, ks, vals);
      forall i | 0 <= i < |vals| ensures EncKey(cx, ks[i], vals[i]) == Some(r[i]) {
        if i > 0 { assert ks[i] == ks[1..][i - 1] && vals[i] == vals[1..][i - 1] && r[i] == r[1..][i - 1]; }
      }
    }
  }

  /** Selectors may come in any order: for each key in turn the first selector with its name is taken, if there is one. */
  lemma PickedInKeyOrder(cx: Context, k: nat, rest: seq<nat>, given: seq<(string, string)>)
    requires Sound(cx.s) && AllBelow([k] + rest, |cx.s.nodes|)
    ensures AllBelow(rest, |cx.s.nodes|) && k < |cx.s.nodes| && PickKeys(cx, [], given) == Some([])
    ensures PickKeys(cx, [k] + rest, given) ==
      match Given(given, LocalName(cx.s.nodes[k].name))
      case None => PickKeys(cx, rest, given)
      case Some(raw) =>
        match EncKey(cx, k, raw) { case None => None case Some(c) => Cons(c, PickKeys(cx, rest, given)) }
  {
    hide EncKey, Given, LocalName;
    assert ([k] + rest)[0] == k && ([k] + rest)[1..] == rest;
    assert forall i :: 0 <= i < |rest| ==> rest[i] == ([k] + rest)[i + 1];
  }

  lemma {:induction false} GivenIs(given: seq<(string, string)>, name: string)
    ensures match Given(given, name)
      case None => forall i :: 0 <= i < |given| ==> given[i].0 != name
      case Some(raw) =>
        exists i :: 0 <= i < |given| && given[i] == (name, raw) && forall j :: 0 <= j < i ==> given[j].0 != name
    decreases |given|
  {
    if given != [] && given[0].0 != name {
      GivenIs(given[1..], name);
      assert forall i :: 0 < i < |given| ==> given[i] == given[1..][i - 1];
      match Given(given[1..], name)
      case None =>
      case Some(raw) =>
        var i :| 0 <= i < |given[1..]| && given[1..][i] == (name, raw) && forall j :: 0 <= j < i ==> given[1..][j].0 != name;
        assert given[i + 1] == (name, raw);
    }
  }

  /** Each segment is looked up below the one before; the last one's SID counts, and all keys are kept. */
  lemma SegmentsInTurn(cx: Context, cur: Scope, text: string, rest: seq<string>, sid: i64, keys: seq<C.Value>)
    requires Sound(cx.s) && ScopeOk(cx.s, cur)
    ensures ResolveSegments(cx, cur, [], sid, keys) == if cur.At? then Some(Resolved(cur.n, sid, keys)) else None
    ensures ResolveSegments(cx, cur, [text] + rest, sid, keys) ==
      match ResolveSegment(cx, cur, text)
      case None => None
      case Some(r) => ResolveSegments(cx, At(r.node), rest, r.sid, keys + r.keys)
  {
    hide ResolveSegment;
    assert ([text] + rest)[0] == text && ([text] + rest)[1..] == rest;
  }

  predicate SelectsKey(s: Schema, n: nat, name: string)
    requires Sound(s) && n < |s.nodes|
  {
    exists j :: 0 <= j < |s.nodes[n].keys| && LocalName(s.nodes[s.nodes[n].keys[j]].name) == name
  }

  predicate AllSelectKeys(s: Schema, n: nat, given: seq<(string, string)>)
    requires Sound(s) && n < |s.nodes|
  {
    forall i :: 0 <= i < |given| ==> SelectsKey(s, n, given[i].0)
  }

  /** A segment is a name and selectors: the name is a child's that has a SID, and every selector names one of its keys. */
  lemma SegmentIs(cx: Context, cur: Scope, text: string)
    requires Sound(cx.s) && ScopeOk(cx.s, cur)
    ensures var r := ResolveSegment(cx, cur, text);
      match ParseSegment(text)
      case None => r == None
      case Some(seg) =>
        match FindIn(cx.s, cur, seg.name)
        case None => r == None
        case Some(child) =>
          if cx.s.nodes[child].sid.None? || !AllSelectKeys(cx.s, child, seg.keys) then r == None
          else
            match PickKeys(cx, cx.s.nodes[child].keys, seg.keys)
            case None => r == None
            case Some(keys) => r == Some(Resolved(child, cx.s.nodes[child].sid.value, keys))
  {
    hide ParseSegment, PickKeys, FindIn, LocalName;
  }

  // ---------------------------------------------------------------- the text of a path

  /** Outside brackets a slash ends a piece, and empty pieces are dropped; other characters belong to it. */
  lemma SlashCuts(rest: string, cur: string, c: char)
    requires c !in "/[]"
    ensures SplitOutside("", 0, cur) == if cur == "" then [] else [cur]
    ensures SplitOutside("/" + rest, 0, cur) == (if cur == "" then [] else [cur]) + SplitOutside(rest, 0, "")
    ensures SplitOutside([c] + rest, 0, cur) == SplitOutside(rest, 0, cur + [c])
  {
    assert ("/" + rest)[1..] == rest && ([c] + rest)[1..] == rest;
  }

  /** Inside brackets nothing cuts. */
  lemma BracketsKeep(inside: string, rest: string, cur: string)
    requires NoBrackets(inside)
    ensures SplitOutside("[" + inside + "]" + rest, 0, cur) == SplitOutside(rest, 0, cur + "[" + inside + "]")
  {
    var s := "[" + inside + "]" + rest;
    assert s[0] == '[' && s[1..] == inside + "]" + rest;
    InsideKeeps(inside, rest, cur + "[");
    assert cur + ['['] == cur + "[";
  }

  lemma {:induction false} InsideKeeps(inside: string, rest: string, cur: string)
    requires NoBrackets(inside)
    ensures SplitOutside(inside + "]" + rest, 1, cur) == SplitOutside(rest, 0, cur + inside + "]")
    decreases |inside|
  {
    var s := inside + "]" + rest;
    if inside == "" {
      assert s[1..] == rest && cur + inside + "]" == cur + [']'];
    } else {
      assert s[0] == inside[0] && s[1..] == inside[1..] + "]" + rest;
      InsideKeeps(inside[1..], rest, cur + [inside[0]]);
      assert cur + [inside[0]] + inside[1..] + "]" == cur + inside + "]";
    }
  }

  /** A segment without a bracket is a name; else the name ends at the first one, and selectors follow. */
  lemma SegmentText(name: string, r: string)
    requires '[' !in name
    ensures ParseSegment(name) == Some(Segment(name, []))
    ensures ParseSegment(name + "[" + r) == match ParseKeys(r) case None => None case Some(keys) => Some(Segment(name, keys))
  {
    hide ParseKeys;
    YangLeafLayout.SplitNowhere(name, '[');
    SplitOnceAt(name, '[', r);
    assert name + ['['] + r == name + "[" + r;
  }

  /** A selector is a key, an equals sign and a value up to the closing bracket; the next one may follow after anything. */
  lemma SelectorText(k: string, v: string, skipped: string, more: string)
    requires '=' !in k && ']' !in k && ']' !in v && '[' !in skipped
    ensures ParseKeys(k + "=" + v + "]" + skipped) == Some([(k, Unquote(TrimEnd(TrimStart(v))))])
    ensures ParseKeys(k + "=" + v + "]" + skipped + "[" + more) == Cons((k, Unquote(TrimEnd(TrimStart(v)))), ParseKeys(more))
  {
    var inner := k + "=" + v;
    SplitOnceAt(k, '=', v);
    assert k + ['='] + v == inner && ']' !in inner;
    SplitOnceAt(inner, ']', skipped);
    assert inner + [']'] + skipped == k + "=" + v + "]" + skipped;
    SplitOnceAt(inner, ']', skipped + "[" + more);
    assert inner + [']'] + (skipped + "[" + more) == k + "=" + v + "]" + skipped + "[" + more;
    YangLeafLayout.SplitNowhere(skipped, '[');
    SplitOnceAt(skipped, '[', more);
    assert skipped + ['['] + more == skipped + "[" + more;
    hide Unquote, TrimEnd, TrimStart, SplitOnce;
    KeysUnfold(k + "=" + v + "]" + skipped);
    KeysUnfold(k + "=" + v + "]" + skipped + "[" + more);
  }

  lemma KeysUnfold(r: string)
    ensures SplitOnce(r, ']').Some? && SplitOnce(SplitOnce(r, ']').value.0, '=').Some? ==>
      var (inner, after) := SplitOnce(r, ']').value;
      var (k, v) := SplitOnce(inner, '=').value;
      var first := (k, Unquote(TrimEnd(TrimStart(v))));
      ParseKeys(r) ==
        match SplitOnce(after, '[') { case None => Some([first]) case Some((_, next)) => Cons(first, ParseKeys(next)) }
  {
    hide Unquote, TrimEnd, TrimStart, SplitOnce;
  }

  /** One pair of quotes of either kind is taken off; blanks around it are not part of the value. */
  lemma QuotesComeOff(x: string)
    ensures Unquote("'" + x + "'") == x && Unquote("\"" + x + "\"") == x
    ensures x == "" || x[0] !in "'\"" || |x| == 1 || x[|x| - 1] != x[0] ==> Unquote(x) == x
  {
    assert ("'" + x + "'")[1..|x| + 1] == x && ("\"" + x + "\"")[1..|x| + 1] == x;
  }

  lemma {:induction false} BlanksComeOff(before: string, x: string, after: string)
    requires (forall i :: 0 <= i < |before| ==> IsSpace(before[i])) && (forall i :: 0 <= i < |after| ==> IsSpace(after[i]))
    requires x != "" && !IsSpace(x[0]) && !IsSpace(x[|x| - 1])
    ensures TrimEnd(TrimStart(before + x + after)) == x
    decreases |before| + |after|
  {
    var s := before + x + after;
    if before != "" {
      assert s[0] == before[0] && s[1..] == before[1..] + x + after;
      BlanksComeOff(before[1..], x, after);
    } else if after != "" {
      var t := after[..|after| - 1];
      assert s[0] == x[0] && s[|s| - 1] == after[|after| - 1] && s[..|s| - 1] == before + x + t;
      BlanksComeOff(before, x, t);
      assert (before + x + t)[0] == x[0];
    } else {
      assert s == x;
    }
  }

  // ---------------------------------------------------------------- printing

  /** A path is printed from its first node on, each as a slash, its name and its keys. */
  lemma PrintedStep(s: Schema, st: Step, rest: seq<Step>)
    requires Sound(s) && Printable(s, [st] + rest)
    ensures Printable(s, rest) && st.node < |s.nodes| && AllBelow(s.nodes[st.node].keys, |s.nodes|)
    ensures |st.vals| <= |s.nodes[st.node].keys| && PathString(s, []) == ""
    ensures PathString(s, [st] + rest) ==
      "/" + (s.nodes[st.node].name + Selectors(s, s.nodes[st.node].keys, st.vals)) + PathString(s, rest)
  {
    hide Selectors, Forest, AtLeast;
    PrintableRest(s, [st] + rest);
    assert ([st] + rest)[0] == st && ([st] + rest)[1..] == rest;
  }

  /** A key is printed as [name='value']. */
  lemma PrintedKey(s: Schema, k: nat, ks: seq<nat>, v: string, vals: seq<string>)
    requires Sound(s) && AllBelow([k] + ks, |s.nodes|) && |vals| <= |ks|
    ensures k < |s.nodes| && AllBelow(ks, |s.nodes|)
    ensures Selectors(s, [k] + ks, [v] + vals) == "[" + LocalName(s.nodes[k].name) + "='" + v + "']" + Selectors(s, ks, vals)
  {
    hide LocalName, Forest, AtLeast;
    assert ([k] + ks)[0] == k && ([k] + ks)[1..] == ks && ([v] + vals)[1..] == vals;
    assert forall i :: 0 <= i < |ks| ==> ks[i] == ([k] + ks)[i + 1];
  }

  /** A key's text is read by its type: short integers and booleans as such, [null] for an empty key, all else as text. */
  lemma KeyRead(ty: Type, raw: string)
    ensures match ty.builtin
      case Int8 | Int16 | Int32 => ConvertKey(ty, raw) == AsNumber(ParseInt(raw, -0x8000_0000_0000_0000, 0x7FFF_FFFF_FFFF_FFFF))
      case Uint8 | Uint16 | Uint32 => ConvertKey(ty, raw) == AsNumber(ParseInt(raw, 0, 0xFFFF_FFFF_FFFF_FFFF))
      case Boolean =>
        ConvertKey(ty, raw) == if raw == "true" then Some(JBool(true)) else if raw == "false" then Some(JBool(false)) else None
      case Empty => ConvertKey(ty, raw) == Some(if raw == "[null]" then JArr([JNull]) else JStr(raw))
      case _ => ConvertKey(ty, raw) == Some(JStr(raw))
  {
    hide ParseInt;
  }

  function AsNumber(n: Option<int>): Option<Json> {
    match n case None => None case Some(x) => Some(JNum(x))
  }

  /** Text is printed as it is, and other values as JSON. */
  lemma KeyPrinted(s: string, n: int, b: bool)
    ensures KeyText(JStr(s)) == s && KeyText(JNum(n)) == Print(n)
    ensures KeyText(JBool(b)) == (if b then "true" else "false") && KeyText(JArr([JNull])) == "[null]"
  {
    assert ItemsText([JNull]) == "null";
  }
}
