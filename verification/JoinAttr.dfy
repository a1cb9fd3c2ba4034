/** Debug-info entries and the lookup of an attribute through their origin and specification links. */
module JoinAttr {
  import opened ByteStrings

  type Off = string

  /** A debug-information entry. */
  datatype Die = Die(off: Off, depth: nat, tag: string, attrs: map<string, string>)

  /** All entries by offset, as loading builds them. */
  type Dies = d: map<Off, Die> | forall o :: o in d ==> d[o].off == o witness map[]

  const ORIGIN := "DW_AT_abstract_origin"
  const SPECIFICATION := "DW_AT_specification"

  // ---------- Links

  predicate IsHex(c: char) {
    '0' <= c <= '9' || 'a' <= c <= 'f'
  }

  /** Length of the longest run of hex digits from position i. */
  function HexRun(s: string, i: nat): (n: nat)
    requires i <= |s|
    ensures i + n <= |s|
    decreases |s| - i
  {
    if i < |s| && IsHex(s[i]) then 1 + HexRun(s, i + 1) else 0
  }

  /** The offset a value starts with, if it starts with one. */
  function Ref(v: string): Option<Off> {
    if |v| > 2 && v[0] == '0' && v[1] == 'x' && HexRun(v, 2) > 0 then Some(v[..2 + HexRun(v, 2)]) else None
  }

  /** The entry a link leads to: present, well formed and known. */
  function Target(dies: Dies, o: Off, link: string): (t: Option<Off>)
    requires o in dies
    ensures t.Some? ==> t.value in dies
  {
    var attrs := dies[o].attrs;
    if link !in attrs then None else
    var r := Ref(attrs[link]);
    if r.Some? && r.value in dies then r else None
  }

  ghost predicate Linked(dies: Dies, a: Off, b: Off) {
    a in dies && (Target(dies, a, ORIGIN) == Some(b) || Target(dies, a, SPECIFICATION) == Some(b))
  }

  /** A chain of links, both ends included. */
  ghost predicate IsPath(dies: Dies, path: seq<Off>) {
    path != [] && path[0] in dies && forall i :: 0 <= i < |path| - 1 ==> Linked(dies, path[i], path[i + 1])
  }

  ghost predicate Reaches(dies: Dies, a: Off, b: Off) {
    exists path :: IsPath(dies, path) && path[0] == a && path[|path| - 1] == b
  }

  /** The text after 0x consists of hexadecimal digits, at least one. */
  ghost predicate IsOffset(r: string) {
    "0x" < r && forall i :: 2 <= i < |r| ==> r[i] in "0123456789abcdef"
  }

  lemma {:induction false} HexRunIs(s: string, i: nat)
    requires i <= |s|
    ensures forall j :: i <= j < i + HexRun(s, i) ==> IsHex(s[j])
    ensures i + HexRun(s, i) < |s| ==> !IsHex(s[i + HexRun(s, i)])
    decreases |s| - i
  {
    if i == |s| || !IsHex(s[i]) {
    } else {
      HexRunIs(s, i + 1);
    }
  }

  lemma HexDigits(c: char)
    ensures IsHex(c) <==> c in "0123456789abcdef"
  {
    var digits := "0123456789abcdef";
    if '0' <= c <= '9' { assert digits[c as int - '0' as int] == c; }
    if 'a' <= c <= 'f' { assert digits[c as int - 'a' as int + 10] == c; }
  }

  /** A reference is the longest offset a value starts with. */
  lemma RefExactly(v: string, r: string)
    ensures Ref(v) == Some(r) <==> r <= v && IsOffset(r) && (|r| < |v| ==> v[|r|] !in "0123456789abcdef")
  {
    forall c ensures IsHex(c) <==> c in "0123456789abcdef" { HexDigits(c); }
    hide IsHex;
    if |v| > 2 {
      HexRunIs(v, 2);
      var n := 2 + HexRun(v, 2);
      hide HexRun;
      if r <= v && IsOffset(r) && (|r| < |v| ==> v[|r|] !in "0123456789abcdef") {
        forall j | 2 <= j < |r| ensures IsHex(v[j]) { assert r[j] == v[j]; }
        assert |r| == n;
        assert r == v[..n];
      }
    }
  }

  // ---------- The search

  datatype Visit = Visit(found: Option<string>, seen: set<Off>)

  /** The search with one visited set, shared by both links. */
  function Search(dies: Dies, o: Option<Off>, name: string, seen: set<Off>): (r: Visit)
    requires o.Some? ==> o.value in dies
    ensures seen <= r.seen <= seen + dies.Keys
    decreases dies.Keys - seen, 1
  {
    if o.None? || o.value in seen then Visit(None, seen) else Expand(dies, o.value, name, seen)
  }

  /** The search at an entry not visited before. */
  function Expand(dies: Dies, o: Off, name: string, seen: set<Off>): (r: Visit)
    requires o in dies && o !in seen
    ensures seen + {o} <= r.seen <= seen + dies.Keys
    decreases dies.Keys - seen, 0
  {
    var seen1 := seen + {o};
    if name in dies[o].attrs then Visit(Some(dies[o].attrs[name]), seen1) else
    assert dies.Keys - seen1 < dies.Keys - seen by { assert o in dies.Keys - seen; }
    var first := Search(dies, Target(dies, o, ORIGIN), name, seen1);
    assert dies.Keys - first.seen < dies.Keys - seen by { assert o in dies.Keys - seen && o in first.seen; }
    if first.found.Some? then first else Search(dies, Target(dies, o, SPECIFICATION), name, first.seen)
  }

  function Attr(dies: Dies, o: Off, name: string): Option<string>
    requires o in dies
  {
    Search(dies, Some(o), name, {}).found
  }

  /** The visited set the code threads through its calls. */
  class Visited {
    var offs: set<Off>

    constructor ()
      ensures offs == {}
    {
      offs := {};
    }
  }

  /** The recursive lookup, marking entries as it goes. */
  method FindAttr(dies: Dies, o: Option<Off>, name: string, seen: Visited) returns (found: Option<string>)
    requires o.Some? ==> o.value in dies
    modifies seen
    ensures Visit(found, seen.offs) == Search(dies, o, name, old(seen.offs))
    decreases dies.Keys - seen.offs
  {
    if o.None? || o.value in seen.offs {
      return None;
    }
    var die := o.value;
    ghost var before := seen.offs;
    seen.offs := seen.offs + {die};
    if name in dies[die].attrs {
      return Some(dies[die].attrs[name]);
    }
    assert die in dies.Keys - before;
    found := FindAttr(dies, Target(dies, die, ORIGIN), name, seen);
    if found.Some? {
      return;
    }
    found := FindAttr(dies, Target(dies, die, SPECIFICATION), name, seen);
  }

  // ---------- What it finds

  /** Entries without the attribute whose links stay inside a set. */
  ghost predicate Exhausted(dies: Dies, some: set<Off>, within: set<Off>, name: string) {
    forall x :: x in some ==> x in dies && name !in dies[x].attrs && (forall y :: Linked(dies, x, y) ==> y in within)
  }

  /** A failed search has exhausted everything it newly visited. */
  lemma {:induction false} SearchFails(dies: Dies, o: Option<Off>, name: string, seen: set<Off>)
    requires (o.Some? ==> o.value in dies) && Search(dies, o, name, seen).found.None?
    ensures var r := Search(dies, o, name, seen);
            (o.Some? ==> o.value in r.seen) && Exhausted(dies, r.seen - seen, r.seen, name)
    decreases dies.Keys - seen, 1
  {
    if o.Some? && o.value !in seen { ExpandFails(dies, o.value, name, seen); }
  }

  lemma {:induction false} ExpandFails(dies: Dies, o: Off, name: string, seen: set<Off>)
    requires o in dies && o !in seen && Expand(dies, o, name, seen).found.None?
    ensures var r := Expand(dies, o, name, seen);
            Exhausted(dies, r.seen - seen, r.seen, name)
    decreases dies.Keys - seen, 0
  {
    var seen1 := seen + {o};
    assert o in dies.Keys - seen;
    var first := Search(dies, Target(dies, o, ORIGIN), name, seen1);
    SearchFails(dies, Target(dies, o, ORIGIN), name, seen1);
    SearchFails(dies, Target(dies, o, SPECIFICATION), name, first.seen);
  }

  lemma {:induction false} ClosedUnderPaths(dies: Dies, closed: set<Off>, name: string, path: seq<Off>)
    requires Exhausted(dies, closed, closed, name) && IsPath(dies, path) && path[0] in closed
    ensures path[|path| - 1] in closed
    decreases |path|
  {
    if |path| > 1 {
      assert Linked(dies, path[0], path[1]);
      assert forall i :: 0 <= i < |path| - 2 ==> Linked(dies, path[1..][i], path[1..][i + 1]) by {
        forall i | 0 <= i < |path| - 2 ensures Linked(dies, path[1..][i], path[1..][i + 1]) {
          assert Linked(dies, path[i + 1], path[i + 2]);
        }
      }
      ClosedUnderPaths(dies, closed, name, path[1..]);
    }
  }

  /** A successful search found the attribute on an entry it reached. */
  lemma {:induction false} SearchSucceeds(dies: Dies, o: Option<Off>, name: string, seen: set<Off>)
    returns (path: seq<Off>)
    requires (o.Some? ==> o.value in dies) && Search(dies, o, name, seen).found.Some?
    ensures o.Some? && IsPath(dies, path) && path[0] == o.value
    ensures var last := path[|path| - 1];
            && last in dies && name in dies[last].attrs
            && Search(dies, o, name, seen).found == Some(dies[last].attrs[name])
    decreases dies.Keys - seen, 1
  {
    var die, seen1 := o.value, seen + {o.value};
    if name in dies[die].attrs {
      path := [die];
    } else {
      assert die in dies.Keys - seen;
      var first := Search(dies, Target(dies, die, ORIGIN), name, seen1);
      var rest;
      if first.found.Some? {
        rest := SearchSucceeds(dies, Target(dies, die, ORIGIN), name, seen1);
      } else {
        rest := SearchSucceeds(dies, Target(dies, die, SPECIFICATION), name, first.seen);
      }
      path := [die] + rest;
      assert Linked(dies, die, rest[0]);
    }
  }

  /** The lookup succeeds exactly when some entry reached by links has the attribute, cycles or not, and what it
      returns is such an entry's value. */
  lemma {:induction false} AttrExact(dies: Dies, o: Off, name: string)
    requires o in dies
    ensures Attr(dies, o, name).Some? <==> exists b :: Reaches(dies, o, b) && b in dies && name in dies[b].attrs
    ensures Attr(dies, o, name).Some? ==>
              exists b :: Reaches(dies, o, b) && b in dies && name in dies[b].attrs &&
                          Attr(dies, o, name).value == dies[b].attrs[name]
  {
    var r := Search(dies, Some(o), name, {});
    if r.found.Some? {
      var path := SearchSucceeds(dies, Some(o), name, {});
      var b := path[|path| - 1];
      assert Reaches(dies, o, b);
    } else {
      SearchFails(dies, Some(o), name, {});
      assert r.seen - {} == r.seen;
      forall b | Reaches(dies, o, b) && b in dies ensures name !in dies[b].attrs {
        var path :| IsPath(dies, path) && path[0] == o && path[|path| - 1] == b;
        ClosedUnderPaths(dies, r.seen, name, path);
      }
    }
  }

  // ---------- Sharing the visited set costs nothing

  /** The plain search: only the entries on the way here are off limits, so shared entries are searched again. */
  function PathSearch(dies: Dies, o: Option<Off>, name: string, onPath: set<Off>): Option<string>
    requires o.Some? ==> o.value in dies
    decreases dies.Keys - onPath
  {
    if o.None? || o.value in onPath then None
    else if name in dies[o.value].attrs then Some(dies[o.value].attrs[name])
    else
      assert o.value in dies.Keys - onPath;
      var first := PathSearch(dies, Target(dies, o.value, ORIGIN), name, onPath + {o.value});
      if first.Some? then first else PathSearch(dies, Target(dies, o.value, SPECIFICATION), name, onPath + {o.value})
  }

  /** From an exhausted entry the plain search fails as well. */
  lemma {:induction false} ExhaustedFails(dies: Dies, o: Option<Off>, name: string, seen: set<Off>, onPath: set<Off>)
    requires (o.Some? ==> o.value in dies && o.value in seen) && Exhausted(dies, seen - onPath, seen, name)
    ensures PathSearch(dies, o, name, onPath).None?
    decreases dies.Keys - onPath
  {
    if o.Some? && o.value !in onPath {
      var die := o.value;
      assert die in seen - onPath && die in dies.Keys - onPath;
      assert Target(dies, die, ORIGIN).Some? ==> Linked(dies, die, Target(dies, die, ORIGIN).value);
      assert Target(dies, die, SPECIFICATION).Some? ==> Linked(dies, die, Target(dies, die, SPECIFICATION).value);
      ExhaustedFails(dies, Target(dies, die, ORIGIN), name, seen, onPath + {die});
      ExhaustedFails(dies, Target(dies, die, SPECIFICATION), name, seen, onPath + {die});
    }
  }

  lemma {:induction false} SearchIsPathSearch(dies: Dies, o: Option<Off>, name: string, seen: set<Off>,
                                              onPath: set<Off>)
    requires (o.Some? ==> o.value in dies) && onPath <= seen && Exhausted(dies, seen - onPath, seen, name)
    ensures Search(dies, o, name, seen).found == PathSearch(dies, o, name, onPath)
    decreases dies.Keys - seen
  {
    if o.Some? && o.value in seen {
      ExhaustedFails(dies, o, name, seen, onPath);
    } else if o.Some? && name !in dies[o.value].attrs {
      var die, seen1, path1 := o.value, seen + {o.value}, onPath + {o.value};
      assert die in dies.Keys - seen;
      assert seen1 - path1 == seen - onPath;
      SearchIsPathSearch(dies, Target(dies, die, ORIGIN), name, seen1, path1);
      var first := Search(dies, Target(dies, die, ORIGIN), name, seen1);
      if first.found.None? {
        SearchFails(dies, Target(dies, die, ORIGIN), name, seen1);
        SearchIsPathSearch(dies, Target(dies, die, SPECIFICATION), name, first.seen, path1);
      }
    }
  }

  /** The lookup with its shared visited set returns the very value of the search that shares nothing. */
  lemma {:induction false} SharingIsHarmless(dies: Dies, o: Off, name: string)
    requires o in dies
    ensures Attr(dies, o, name) == PathSearch(dies, Some(o), name, {})
  {
    SearchIsPathSearch(dies, Some(o), name, {}, {});
  }

  // ---------- Which value is found

  /** An entry on the way here is off limits as if it were not there. */
  lemma {:induction false} GoneIsOnPath(dies: Dies, o: Option<Off>, name: string, gone: set<Off>, onPath: set<Off>)
    requires o.Some? ==> o.value in dies && o.value !in gone
    ensures PathSearch(dies, o, name, gone + onPath) == PathSearch(dies - gone, o, name, onPath)
    decreases dies.Keys - gone - onPath, 0
  {
    if o.Some? && o.value !in onPath && name !in dies[o.value].attrs {
      var die := o.value;
      assert die in dies.Keys - gone - onPath;
      assert gone + onPath + {die} == gone + (onPath + {die});
      GoneLink(dies, die, ORIGIN, name, gone, onPath + {die});
      GoneLink(dies, die, SPECIFICATION, name, gone, onPath + {die});
    }
  }

  lemma {:induction false} GoneLink(dies: Dies, o: Off, link: string, name: string, gone: set<Off>, onPath: set<Off>)
    requires o in dies && o !in gone && o in onPath
    ensures PathSearch(dies, Target(dies, o, link), name, gone + onPath) ==
            PathSearch(dies - gone, Target(dies - gone, o, link), name, onPath)
    decreases dies.Keys - gone - onPath, 1
  {
    hide Ref;
    var t := Target(dies, o, link);
    if t.Some? && t.value !in gone {
      assert Target(dies - gone, o, link) == t;
      GoneIsOnPath(dies, t, name, gone, onPath);
    }
  }

  /** The lookup from the entry a link of o leads to, in the graph without o. */
  function Beyond(dies: Dies, o: Off, link: string, name: string): Option<string>
    requires o in dies
  {
    var t := Target(dies, o, link);
    if t.None? || t.value == o then None else Attr(dies - {o}, t.value, name)
  }

  /** An entry's own value comes first; then whatever a lookup from its abstract origin finds without coming back to
      the entry; and only if that finds nothing, what a lookup from its specification finds. */
  lemma NearestFirst(dies: Dies, o: Off, name: string)
    requires o in dies
    ensures name in dies[o].attrs ==> Attr(dies, o, name) == Some(dies[o].attrs[name])
    ensures name !in dies[o].attrs ==>
      var origin := Beyond(dies, o, "DW_AT_abstract_origin", name);
      Attr(dies, o, name) == if origin.Some? then origin else Beyond(dies, o, "DW_AT_specification", name)
  {
    hide Ref;
    SharingIsHarmless(dies, o, name);
    var none: set<Off> := {};
    assert none + {o} == {o};
    BeyondIs(dies, o, ORIGIN, name);
    BeyondIs(dies, o, SPECIFICATION, name);
  }

  lemma BeyondIs(dies: Dies, o: Off, link: string, name: string)
    requires o in dies
    ensures PathSearch(dies, Target(dies, o, link), name, {o}) == Beyond(dies, o, link, name)
  {
    hide Ref;
    var t := Target(dies, o, link);
    if t.Some? && t.value != o {
      assert {o} + {} == {o};
      GoneIsOnPath(dies, t, name, {o}, {});
      SharingIsHarmless(dies - {o}, t.value, name);
    }
  }

  /** A link leads exactly to the known offset that the attribute of that very name starts with. */
  lemma TargetExactly(dies: Dies, o: Off, link: string, p: Off)
    requires o in dies
    ensures Target(dies, o, link) == Some(p) <==>
            p in dies && link in dies[o].attrs && Ref(dies[o].attrs[link]) == Some(p)
  {
    hide Ref;
  }

  /** The two links are those of an abstract origin and of a specification. */
  lemma LinksAre(dies: Dies, o: Off, p: Off)
    requires o in dies
    ensures Linked(dies, o, p) <==>
      p in dies &&
      exists link | link in {"DW_AT_abstract_origin", "DW_AT_specification"} && link in dies[o].attrs
        :: Ref(dies[o].attrs[link]) == Some(p)
  {
    hide Ref;
  }
}
