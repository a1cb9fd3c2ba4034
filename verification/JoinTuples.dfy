/** What the tuple of a variable holds, in terms of the entries, and what sharing a record therefore means. */
module JoinTuples {
  import opened ByteStrings
  import opened JoinAttr
  import opened JoinScopes
  import opened JoinMap

  // ---------- Quotes

  function Quote(t: string): string {
    "\"" + t + "\""
  }

  /** Unquoting takes exactly one pair of quotes off, and leaves any other text as it is. */
  lemma UnquoteExactly(v: string, t: string)
    ensures Unquote(Some(v)) == Some(t) <==> v == Quote(t) || (t == v && forall u :: v != Quote(u))
    ensures Unquote(None) == None
  {
    if |v| >= 2 && v[0] == '"' && v[|v| - 1] == '"' {
      var inner := v[1..|v| - 1];
      assert v == Quote(inner);
      if v == Quote(t) { assert v[1..|v| - 1] == t; }
    }
  }

  /** The white space characters of the pattern language: ASCII, the four separators, and Unicode. */
  ghost predicate White(c: char) {
    || c in {'\t', '\n', '\U{0B}', '\U{0C}', '\r', ' '}
    || c in {'\U{1C}', '\U{1D}', '\U{1E}', '\U{1F}'}
    || c in {'\U{85}', '\U{A0}', '\U{1680}', '\U{2028}', '\U{2029}', '\U{202F}', '\U{205F}', '\U{3000}'}
    || c in {'\U{2000}', '\U{2001}', '\U{2002}', '\U{2003}', '\U{2004}', '\U{2005}', '\U{2006}'}
    || c in {'\U{2007}', '\U{2008}', '\U{2009}', '\U{200A}'}
  }

  /** The trimmed characters are exactly those. */
  lemma SpacesAre(c: char)
    ensures IsSpace(c) <==> White(c)
  {
  }

  ghost predicate AllSpace(s: string) {
    forall i :: 0 <= i < |s| ==> White(s[i])
  }

  lemma {:induction false} TrimEndIs(s: string, post: string)
    requires AllSpace(post) && (s != "" ==> !White(s[|s| - 1]))
    ensures TrimEnd(s + post) == s
    decreases |post|
  {
    hide IsSpace, White;
    forall c ensures IsSpace(c) <==> White(c) { SpacesAre(c); }
    if post == "" {
      assert s + post == s;
    } else {
      var shorter := post[..|post| - 1];
      TrimEndIs(s, shorter);
      assert (s + post)[..|s + post| - 1] == s + shorter;
    }
  }

  lemma {:induction false} TrimEndCuts(s: string)
    ensures |TrimEnd(s)| <= |s| && s[..|TrimEnd(s)|] == TrimEnd(s) && AllSpace(s[|TrimEnd(s)|..])
    ensures TrimEnd(s) != "" ==> !White(TrimEnd(s)[|TrimEnd(s)| - 1])
  {
    hide IsSpace, White;
    forall c ensures IsSpace(c) <==> White(c) { SpacesAre(c); }
    if s == "" || !IsSpace(s[|s| - 1]) {
    } else {
      var init := s[..|s| - 1];
      TrimEndCuts(init);
      assert s[..|TrimEnd(s)|] == init[..|TrimEnd(s)|];
      assert s[|TrimEnd(s)|..] == init[|TrimEnd(s)|..] + [s[|s| - 1]];
    }
  }

  lemma {:induction false} FirstQuoteIs(pre: string, rest: string, i: nat)
    requires i <= |pre| && '"' !in pre
    ensures FirstQuote(pre + "\"" + rest, i) == |pre|
    decreases |pre| - i
  {
    var s := pre + "\"" + rest;
    if i == |pre| {
      assert s[i] == '"';
    } else {
      assert s[i] == pre[i];
      FirstQuoteIs(pre, rest, i + 1);
    }
  }

  /** A type is a quoted name after anything without a quote, white space allowed at the end. */
  ghost predicate NamesType(raw: string, pre: string, t: string, post: string) {
    raw == pre + Quote(t) + post && '"' !in pre && AllSpace(post)
  }

  lemma QuotedType(raw: string, pre: string, t: string, post: string)
    requires NamesType(raw, pre, t, post)
    ensures TypeName(Some(raw)) == Some(t)
  {
    hide FirstQuote, TrimEnd;
    var s := pre + Quote(t);
    assert s[|s| - 1] == '"' && !White('"');
    TrimEndIs(s, post);
    assert s == pre + "\"" + (t + "\"");
    FirstQuoteIs(pre, t + "\"", 0);
    assert s[|pre| + 1..|s| - 1] == t;
  }

  lemma {:induction false} BeforeFirstQuote(s: string, i: nat)
    requires i <= |s| && '"' !in s[..i]
    ensures '"' !in s[..FirstQuote(s, i)]
    ensures FirstQuote(s, i) < |s| ==> s[FirstQuote(s, i)] == '"'
    decreases |s| - i
  {
    if i == |s| || s[i] == '"' {
    } else {
      assert s[..i + 1] == s[..i] + [s[i]];
      BeforeFirstQuote(s, i + 1);
    }
  }

  /** A text that is not taken as it is names a type. */
  lemma NotBareIsQuoted(raw: string)
    requires TypeName(Some(raw)) != if raw == "" then None else Some(raw)
    ensures exists pre, t, post :: NamesType(raw, pre, t, post)
  {
    hide FirstQuote, TrimEnd;
    TrimEndCuts(raw);
    var s := TrimEnd(raw);
    BeforeFirstQuote(s, 0);
    var q := FirstQuote(s, 0);
    assert s == s[..q] + Quote(s[q + 1..|s| - 1]);
    assert raw == s + raw[|s|..];
    assert NamesType(raw, s[..q], s[q + 1..|s| - 1], raw[|s|..]);
  }

  /** Any other text is taken as it is, and an empty or missing one is no type. */
  lemma BareType(raw: string)
    requires forall pre, t, post :: !NamesType(raw, pre, t, post)
    ensures TypeName(Some(raw)) == if raw == "" then None else Some(raw)
    ensures TypeName(None) == None
  {
    hide FirstQuote, TrimEnd, NamesType;
    if TypeName(Some(raw)) != if raw == "" then None else Some(raw) {
      NotBareIsQuoted(raw);
    }
  }

  // ---------- The tuple of a variable

  /** The value of an attribute at an entry, found without any shared state: own value first, then along the links. */
  ghost function Looked(dies: Dies, o: Off, name: string): Option<string>
    requires o in dies
  {
    PathSearch(dies, Some(o), name, {})
  }

  /** The name of the function around a variable: its linkage name unless that is missing or empty, else its name. */
  ghost predicate NamesFunction(dies: Dies, scope: Option<Die>, func: Option<string>)
    requires scope.Some? ==> scope.value.off in dies
  {
    if scope.None? then func.None? else
    var linkage := Looked(dies, scope.value.off, "DW_AT_linkage_name");
    if linkage.Some? && linkage.value != "" then func == Unquote(linkage)
    else func == Unquote(Looked(dies, scope.value.off, "DW_AT_name"))
  }

  /** The nearest proper ancestor of an entry that is a scope. */
  ghost function AroundIt(order: seq<Die>, i: nat): (d: Option<Die>)
    requires i < |order|
    ensures d.Some? ==> d.value in order
  {
    DieAt(order, NearestScope(order, i))
  }

  /** Each field of a variable's tuple comes from its own attribute, and the function from the nearest scope. */
  lemma TupleHolds(dies: Dies, order: seq<Die>, i: nat)
    requires Loaded(dies, order) && i < |order| && IsVar(order[i])
    ensures var k, o := KeyAt(dies, order, i), order[i].off;
      && NamesFunction(dies, AroundIt(order, i), k.func)
      && k.variable == Unquote(Looked(dies, o, "DW_AT_name"))
      && k.file == Unquote(Looked(dies, o, "DW_AT_decl_file"))
      && k.line == Unquote(Looked(dies, o, "DW_AT_decl_line"))
      && k.typ == TypeName(Looked(dies, o, "DW_AT_type"))
  {
    hide Unquote, TypeName, Attr, PathSearch, NearestScope, IsVar;
    var o := order[i].off;
    SharingIsHarmless(dies, o, "DW_AT_name");
    SharingIsHarmless(dies, o, "DW_AT_decl_file");
    SharingIsHarmless(dies, o, "DW_AT_decl_line");
    SharingIsHarmless(dies, o, "DW_AT_type");
    var scope := AroundIt(order, i);
    assert scope == ScopeFor(order, i);
    UnquoteExactly("", "");
    if scope.Some? {
      SharingIsHarmless(dies, scope.value.off, "DW_AT_linkage_name");
      SharingIsHarmless(dies, scope.value.off, "DW_AT_name");
    }
  }

  /** The five values that make two variables one source entity. */
  ghost predicate SameEntity(dies: Dies, order: seq<Die>, i: nat, j: nat)
    requires Loaded(dies, order) && i < |order| && j < |order|
  {
    var o, p := order[i].off, order[j].off;
    && (exists f :: NamesFunction(dies, AroundIt(order, i), f) && NamesFunction(dies, AroundIt(order, j), f))
    && Unquote(Looked(dies, o, "DW_AT_name")) == Unquote(Looked(dies, p, "DW_AT_name"))
    && Unquote(Looked(dies, o, "DW_AT_decl_file")) == Unquote(Looked(dies, p, "DW_AT_decl_file"))
    && Unquote(Looked(dies, o, "DW_AT_decl_line")) == Unquote(Looked(dies, p, "DW_AT_decl_line"))
    && TypeName(Looked(dies, o, "DW_AT_type")) == TypeName(Looked(dies, p, "DW_AT_type"))
  }

  lemma FunctionIsUnique(dies: Dies, scope: Option<Die>, f: Option<string>, g: Option<string>)
    requires scope.Some? ==> scope.value.off in dies
    requires NamesFunction(dies, scope, f) && NamesFunction(dies, scope, g)
    ensures f == g
  {
    hide Unquote, PathSearch;
  }

  lemma SameEntityIsSameKey(dies: Dies, order: seq<Die>, i: nat, j: nat)
    requires Loaded(dies, order) && i < |order| && j < |order| && IsVar(order[i]) && IsVar(order[j])
    ensures SameEntity(dies, order, i, j) <==> KeyAt(dies, order, i) == KeyAt(dies, order, j)
  {
    TupleHolds(dies, order, i);
    TupleHolds(dies, order, j);
    hide KeyAt, Unquote, TypeName, Looked, NamesFunction, AroundIt, IsVar;
    var k, l := KeyAt(dies, order, i), KeyAt(dies, order, j);
    if f :| NamesFunction(dies, AroundIt(order, i), f) && NamesFunction(dies, AroundIt(order, j), f) {
      FunctionIsUnique(dies, AroundIt(order, i), f, k.func);
      FunctionIsUnique(dies, AroundIt(order, j), f, l.func);
    }
  }

  /** The built map puts two variables with plain tuples in one record exactly when all five looked-up values agree;
      a difference in any one of them keeps them apart. */
  lemma EntitiesShareRecords(digest: string -> string, dies: Dies, order: seq<Die>, i: nat, j: nat)
    requires Loaded(dies, order) && CollisionFree(digest)
    requires i < |order| && j < |order| && IsVar(order[i]) && IsVar(order[j])
    requires Plain(KeyAt(dies, order, i)) && Plain(KeyAt(dies, order, j))
    ensures var doc := BuildUpTo(digest, dies, order, |order|);
      && order[i].off in doc.offsets && order[j].off in doc.offsets
      && (doc.offsets[order[i].off] == doc.offsets[order[j].off] <==> SameEntity(dies, order, i, j))
  {
    hide KeyAt, Plain, SameEntity, BuildUpTo, CollisionFree, IsVar, AllPieces, Unmistakable;
    ShareARecord(digest, dies, order, i, j);
    SameEntityIsSameKey(dies, order, i, j);
  }
}
