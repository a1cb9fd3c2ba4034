/** Signed feature strings: encoding, decoding, lookup and SIMD widths. */
module FeatureStrings {

  // ---------- Splitting at commas

  function FirstComma(s: string): (i: nat)
    ensures i <= |s| && ',' !in s[..i] && (i < |s| ==> s[i] == ',')
  {
    if s == "" || s[0] == ',' then 0 else
    var i := 1 + FirstComma(s[1..]);
    assert s[..i] == [s[0]] + s[1..][..i - 1];
    i
  }

  /** What follows the first comma. */
  function AfterComma(s: string): (r: string)
    ensures s != "" ==> |r| < |s|
  {
    var i := FirstComma(s);
    if i < |s| then s[i + 1..] else ""
  }

  /** The non-empty pieces between commas. */
  function Tokens(s: string): seq<string>
    decreases |s|
  {
    if s == "" then [] else
    var head := s[..FirstComma(s)];
    (if head == "" then [] else [head]) + Tokens(AfterComma(s))
  }

  function Join(ts: seq<string>): string {
    if |ts| == 0 then "" else if |ts| == 1 then ts[0] else ts[0] + "," + Join(ts[1..])
  }

  ghost predicate CommaFree(ts: seq<string>) {
    forall i :: 0 <= i < |ts| ==> ',' !in ts[i]
  }

  ghost predicate NonEmpty(ts: seq<string>) {
    forall i :: 0 <= i < |ts| ==> ts[i] != ""
  }

  lemma {:induction false} FirstCommaAfter(t: string, rest: string)
    requires ',' !in t
    ensures FirstComma(t + "," + rest) == |t|
    ensures FirstComma(t) == |t|
  {
    if t == "" {
    } else {
      var s := t + "," + rest;
      FirstCommaAfter(t[1..], rest);
      assert s[1..] == t[1..] + "," + rest;
      assert s[0] == t[0] != ',';
    }
  }

  lemma TokensOfOne(t: string)
    requires ',' !in t
    ensures Tokens(t) == if t == "" then [] else [t]
  {
    hide FirstComma;
    FirstCommaAfter(t, "");
    assert t[..|t|] == t;
  }

  /** The first piece unless it is empty, then the pieces of what follows its comma. */
  lemma TokensAfter(t: string, rest: string)
    requires ',' !in t
    ensures Tokens(t + "," + rest) == (if t == "" then [] else [t]) + Tokens(rest)
  {
    hide FirstComma;
    var s := t + "," + rest;
    FirstCommaAfter(t, rest);
    assert s[..|t|] == t && s[|t| + 1..] == rest;
  }

  /** The pieces that are not empty, in order. */
  function WithoutEmpty(ts: seq<string>): seq<string> {
    if ts == [] then [] else (if ts[0] == "" then [] else [ts[0]]) + WithoutEmpty(ts[1..])
  }

  /** Splitting undoes joining, up to the empty pieces, which are skipped wherever they stand. */
  lemma {:induction false} TokensOfAnyJoin(ts: seq<string>)
    requires CommaFree(ts)
    ensures Tokens(Join(ts)) == WithoutEmpty(ts)
  {
    if |ts| == 0 {
    } else if |ts| == 1 {
      TokensOfOne(ts[0]);
    } else {
      hide Tokens;
      TokensAfter(ts[0], Join(ts[1..]));
      TokensOfAnyJoin(ts[1..]);
    }
  }

  lemma {:induction false} NothingEmpty(ts: seq<string>)
    requires NonEmpty(ts)
    ensures WithoutEmpty(ts) == ts
  {
    if ts == [] {
    } else {
      NothingEmpty(ts[1..]);
    }
  }

  /** Splitting undoes joining. */
  lemma TokensOfJoin(ts: seq<string>)
    requires CommaFree(ts) && NonEmpty(ts)
    ensures Tokens(Join(ts)) == ts
  {
    TokensOfAnyJoin(ts);
    NothingEmpty(ts);
  }

  lemma {:induction false} TokensAre(s: string)
    ensures CommaFree(Tokens(s)) && NonEmpty(Tokens(s))
    decreases |s|
  {
    hide FirstComma;
    if s == "" {
    } else {
      TokensAre(AfterComma(s));
    }
  }

  // ---------- Encoding

  function Signed(sign: char, names: seq<string>): (ts: seq<string>)
    ensures |ts| == |names|
  {
    seq(|names|, i requires 0 <= i < |names| => [sign] + names[i])
  }

  function Encode(features: seq<string>, disabled: seq<string>): string {
    Join(Signed('+', features) + Signed('-', disabled))
  }

  lemma {:induction false} JoinAppend(ts: seq<string>, t: string)
    ensures Join(ts + [t]) == if ts == [] then t else Join(ts) + "," + t
  {
    if |ts| == 1 {
      assert ts + [t] == [ts[0], t] && (ts + [t])[1..] == [t];
    } else if |ts| > 1 {
      JoinAppend(ts[1..], t);
      assert (ts + [t])[1..] == ts[1..] + [t];
    }
  }

  lemma {:induction false} JoinEmpty(ts: seq<string>)
    requires NonEmpty(ts)
    ensures Join(ts) == "" <==> ts == []
  {
  }

  /** One more signed name, appended after a comma unless it is the first. */
  lemma SignedSteps(before: seq<string>, sign: char, names: seq<string>, i: nat)
    requires i < |names| && NonEmpty(before + Signed(sign, names[..i]))
    ensures var ts := before + Signed(sign, names[..i]);
      && NonEmpty(before + Signed(sign, names[..i + 1]))
      && Join(before + Signed(sign, names[..i + 1]))
         == (if Join(ts) == "" then "" else Join(ts) + ",") + [sign] + names[i]
  {
    hide Join;
    var ts, t := before + Signed(sign, names[..i]), [sign] + names[i];
    assert before + Signed(sign, names[..i + 1]) == ts + [t];
    JoinEmpty(ts);
    JoinAppend(ts, t);
  }

  /** The text of an encoding, name by name: nothing for no names, and one more name adds its sign and itself, after a
      comma unless it is the first. */
  lemma EncodeIs(features: seq<string>, disabled: seq<string>, name: string)
    ensures Encode([], []) == ""
    ensures Encode(features + [name], []) ==
            (if features == [] then "" else Encode(features, []) + ",") + "+" + name
    ensures Encode(features, disabled + [name]) ==
            (if features + disabled == [] then "" else Encode(features, disabled) + ",") + "-" + name
  {
    assert Signed('+', []) + Signed('-', []) == [];
    SignedOneMore('+', features, name);
    SignedOneMore('-', disabled, name);
    hide Join, Signed;
    var on, off := Signed('+', features), Signed('-', disabled);
    assert on + Signed('-', []) == on;
    assert on + [['+'] + name] + Signed('-', []) == on + [['+'] + name];
    JoinAppend(on, ['+'] + name);
    assert on + (off + [['-'] + name]) == on + off + [['-'] + name];
    JoinAppend(on + off, ['-'] + name);
    JoinEmpty([]);
  }

  lemma SignedOneMore(sign: char, names: seq<string>, name: string)
    ensures Signed(sign, names + [name]) == Signed(sign, names) + [[sign] + name]
    ensures Signed(sign, []) == []
  {
  }

  method AppendSigned(result: string, sign: char, names: seq<string>, ghost before: seq<string>) returns (out: string)
    requires result == Join(before) && NonEmpty(before)
    ensures out == Join(before + Signed(sign, names)) && NonEmpty(before + Signed(sign, names))
  {
    out := result;
    assert before + Signed(sign, names[..0]) == before;
    hide Join, Signed, NonEmpty;
    for i := 0 to |names|
      invariant out == Join(before + Signed(sign, names[..i])) && NonEmpty(before + Signed(sign, names[..i]))
    {
      SignedSteps(before, sign, names, i);
      if out != "" {
        out := out + ",";
      }
      out := out + [sign];
      out := out + names[i];
    }
    assert names[..|names|] == names;
  }

  method EncodeFeatures(features: seq<string>, disabled: seq<string>) returns (result: string)
    ensures result == Encode(features, disabled)
  {
    hide Signed;
    result := AppendSigned("", '+', features, []);
    assert [] + Signed('+', features) == Signed('+', features);
    result := AppendSigned(result, '-', disabled, Signed('+', features));
  }

  // ---------- Decoding

  /** Names in order of first appearance, and whether each was last seen enabled. */
  datatype Sightings = Sightings(order: seq<string>, state: map<string, bool>) | IllFormed

  predicate IsSigned(token: string) {
    token != "" && (token[0] == '+' || token[0] == '-')
  }

  function NameOf(token: string): string {
    if IsSigned(token) then token[1..] else token
  }

  predicate IsEnabling(token: string) {
    !IsSigned(token) || token[0] == '+'
  }

  function See(d: Sightings, token: string): Sightings {
    if d.IllFormed? || (IsSigned(token) && |token| < 2) then IllFormed else
    var name := NameOf(token);
    Sightings(if name in d.state then d.order else d.order + [name], d.state[name := IsEnabling(token)])
  }

  function SeeAll(ts: seq<string>): Sightings {
    if ts == [] then Sightings([], map[]) else See(SeeAll(ts[..|ts| - 1]), ts[|ts| - 1])
  }

  lemma SeeAllSteps(ts: seq<string>, i: nat)
    requires i < |ts|
    ensures SeeAll(ts[..i + 1]) == See(SeeAll(ts[..i]), ts[i])
  {
    assert ts[..i + 1][..i] == ts[..i];
  }

  /** The names that were last seen enabled, or disabled. */
  function Keep(order: seq<string>, state: map<string, bool>, enabled: bool): seq<string> {
    if order == [] then [] else
    var last := order[|order| - 1];
    Keep(order[..|order| - 1], state, enabled) + (if last in state && state[last] == enabled then [last] else [])
  }

  lemma KeepSteps(order: seq<string>, state: map<string, bool>, enabled: bool, i: nat)
    requires i < |order|
    ensures Keep(order[..i + 1], state, enabled)
         == if order[i] in state && state[order[i]] == enabled then Keep(order[..i], state, enabled) + [order[i]]
            else Keep(order[..i], state, enabled)
  {
    assert order[..i + 1][..i] == order[..i];
  }

  datatype Decoded = Features(enabled: seq<string>, disabled: seq<string>) | DecodeError

  function Decode(s: string): Decoded {
    var d := SeeAll(Tokens(s));
    if d.IllFormed? then DecodeError else Features(Keep(d.order, d.state, true), Keep(d.order, d.state, false))
  }

  /** The bookkeeping lists each name once, and tracks exactly the listed names. */
  ghost predicate Consistent(d: Sightings) {
    d.Sightings? ==> Distinct(d.order) && (forall x :: x in d.order <==> x in d.state)
  }

  ghost predicate Distinct(xs: seq<string>) {
    forall i, j :: 0 <= i < j < |xs| ==> xs[i] != xs[j]
  }

  lemma {:induction false} SeeAllConsistent(ts: seq<string>)
    ensures Consistent(SeeAll(ts))
  {
    if ts == [] {
    } else {
      SeeAllConsistent(ts[..|ts| - 1]);
    }
  }

  method DecodeFeatures(encoded: string) returns (r: Decoded)
    ensures r == Decode(encoded)
  {
    hide Tokens;
    var tokens := Tokens(encoded);
    assert SeeAll(tokens[..0]) == Sightings([], map[]);
    hide SeeAll;
    var order: seq<string>, state: map<string, bool> := [], map[];
    for i := 0 to |tokens|
      invariant SeeAll(tokens[..i]) == Sightings(order, state)
    {
      SeeAllSteps(tokens, i);
      var token := tokens[i];
      var name, enabled := token, true;
      if token != "" && (token[0] == '+' || token[0] == '-') {
        if |token| < 2 {
          IllFormedStays(tokens, i + 1);
          return DecodeError;
        }
        name := token[1..];
        enabled := token[0] == '+';
      }
      if name !in state {
        order := order + [name];
      }
      state := state[name := enabled];
    }
    assert tokens[..|tokens|] == tokens;
    SeeAllConsistent(tokens);
    var on, off := [], [];
    assert Keep(order[..0], state, true) == [] && Keep(order[..0], state, false) == [];
    hide Keep;
    for i := 0 to |order|
      invariant on == Keep(order[..i], state, true) && off == Keep(order[..i], state, false)
    {
      KeepSteps(order, state, true, i);
      KeepSteps(order, state, false, i);
      if state[order[i]] {
        on := on + [order[i]];
      } else {
        off := off + [order[i]];
      }
    }
    assert order[..|order|] == order;
    r := Features(on, off);
  }

  lemma {:induction false} IllFormedStays(ts: seq<string>, n: nat)
    requires n <= |ts| && SeeAll(ts[..n]).IllFormed?
    ensures SeeAll(ts).IllFormed?
    decreases |ts| - n
  {
    if n < |ts| {
      assert ts[..n + 1][..n] == ts[..n];
      IllFormedStays(ts, n + 1);
    } else {
      assert ts[..n] == ts;
    }
  }

  // ---------- Decoding undoes encoding, exactly on well-named lists

  ghost predicate WellNamed(features: seq<string>, disabled: seq<string>) {
    && CommaFree(features + disabled) && NonEmpty(features + disabled)
    && Distinct(features + disabled)
  }

  lemma {:induction false} SignedTokens(features: seq<string>, disabled: seq<string>)
    requires CommaFree(features + disabled)
    ensures Tokens(Encode(features, disabled)) == Signed('+', features) + Signed('-', disabled)
  {
    var ts := Signed('+', features) + Signed('-', disabled);
    var names := features + disabled;
    forall i | 0 <= i < |ts| ensures ',' !in ts[i] && ts[i] != "" {
      assert ',' !in names[i] && ts[i][1..] == names[i];
    }
    TokensOfJoin(ts);
  }

  /** The first names are listed in order, each with its own sign. */
  ghost predicate Tracks(d: Sightings, names: seq<string>, on: seq<bool>) {
    && d.Sightings? && d.order == names && |on| == |names|
    && forall i :: 0 <= i < |names| ==> names[i] in d.state && d.state[names[i]] == on[i]
  }

  lemma TracksOneMore(d: Sightings, names: seq<string>, on: seq<bool>, token: string)
    requires Tracks(d, names, on) && Consistent(d)
    requires IsSigned(token) && |token| > 1 && token[1..] !in names
    ensures Tracks(See(d, token), names + [token[1..]], on + [IsEnabling(token)])
  {
    hide Distinct, IsEnabling;
    var name := token[1..];
    forall i | 0 <= i < |names| ensures names[i] != name {}
  }

  function Signs(ts: seq<string>): (on: seq<bool>)
    ensures |on| == |ts|
  {
    seq(|ts|, i requires 0 <= i < |ts| => IsEnabling(ts[i]))
  }

  lemma SignsOneMore(ts: seq<string>, i: nat)
    requires i < |ts|
    ensures Signs(ts[..i + 1]) == Signs(ts[..i]) + [IsEnabling(ts[i])]
  {
    hide IsEnabling;
  }

  lemma TracksNone()
    ensures Tracks(SeeAll([]), [], Signs([]))
  {
  }

  lemma {:induction false} SeeSigned(ts: seq<string>, names: seq<string>, n: nat)
    requires n <= |ts| == |names| && Distinct(names) && NonEmpty(names)
    requires forall i :: 0 <= i < |ts| ==> IsSigned(ts[i]) && ts[i][1..] == names[i]
    ensures Tracks(SeeAll(ts[..n]), names[..n], Signs(ts[..n]))
  {
    hide SeeAll, Tracks, Consistent, See, Distinct, Signs, IsEnabling;
    if n == 0 {
      TracksNone();
      assert ts[..0] == [] && names[..0] == [];
    } else {
      SeeSigned(ts, names, n - 1);
      NewName(names, n - 1);
      SeeAllConsistent(ts[..n - 1]);
      SeeAllSteps(ts, n - 1);
      assert names[n - 1] != "" && ts[n - 1][1..] == names[n - 1];
      TracksOneMore(SeeAll(ts[..n - 1]), names[..n - 1], Signs(ts[..n - 1]), ts[n - 1]);
      assert names[..n] == names[..n - 1] + [names[n - 1]];
      SignsOneMore(ts, n - 1);
    }
  }

  lemma NewName(names: seq<string>, i: nat)
    requires i < |names| && Distinct(names)
    ensures names[i] !in names[..i]
  {
  }

  lemma {:induction false} KeepAppend(a: seq<string>, b: seq<string>, state: map<string, bool>, enabled: bool)
    ensures Keep(a + b, state, enabled) == Keep(a, state, enabled) + Keep(b, state, enabled)
  {
    if b == [] {
      assert a + b == a;
    } else {
      KeepAppend(a, b[..|b| - 1], state, enabled);
      assert (a + b)[..|a + b| - 1] == a + b[..|b| - 1];
    }
  }

  lemma {:induction false} KeepUniform(xs: seq<string>, state: map<string, bool>, was: bool, enabled: bool)
    requires forall i :: 0 <= i < |xs| ==> xs[i] in state && state[xs[i]] == was
    ensures Keep(xs, state, enabled) == if was == enabled then xs else []
  {
    if xs == [] {
    } else {
      KeepUniform(xs[..|xs| - 1], state, was, enabled);
      assert xs == xs[..|xs| - 1] + [xs[|xs| - 1]];
    }
  }

  lemma KeepHalves(features: seq<string>, disabled: seq<string>, state: map<string, bool>)
    requires forall i :: 0 <= i < |features| ==> features[i] in state && state[features[i]]
    requires forall i :: 0 <= i < |disabled| ==> disabled[i] in state && !state[disabled[i]]
    ensures Keep(features + disabled, state, true) == features
    ensures Keep(features + disabled, state, false) == disabled
  {
    hide Keep;
    KeepAppend(features, disabled, state, true);
    KeepAppend(features, disabled, state, false);
    KeepUniform(features, state, true, true);
    KeepUniform(features, state, true, false);
    KeepUniform(disabled, state, false, true);
    KeepUniform(disabled, state, false, false);
  }

  lemma {:induction false} WellNamedSurvive(features: seq<string>, disabled: seq<string>)
    requires WellNamed(features, disabled)
    ensures Decode(Encode(features, disabled)) == Features(features, disabled)
  {
    hide Tokens, Encode, SeeAll, Keep, Distinct;
    SignedTokens(features, disabled);
    var ts, names := Signed('+', features) + Signed('-', disabled), features + disabled;
    assert forall i :: 0 <= i < |ts| ==> IsSigned(ts[i]) && ts[i][1..] == names[i];
    SeeSigned(ts, names, |ts|);
    assert ts[..|ts|] == ts && names[..|ts|] == names;
    var state := SeeAll(ts).state;
    forall i | 0 <= i < |features| ensures features[i] in state && state[features[i]] {
      assert names[i] == features[i];
    }
    forall i | 0 <= i < |disabled| ensures disabled[i] in state && !state[disabled[i]] {
      assert names[|features| + i] == disabled[i];
    }
    KeepHalves(features, disabled, state);
  }

  lemma {:induction false} KeepSelects(order: seq<string>, state: map<string, bool>, enabled: bool, x: string)
    ensures x in Keep(order, state, enabled) <==> x in order && x in state && state[x] == enabled
  {
    if order == [] {
    } else {
      KeepSelects(order[..|order| - 1], state, enabled, x);
      assert order == order[..|order| - 1] + [order[|order| - 1]];
    }
  }

  lemma {:induction false} KeepDistinct(order: seq<string>, state: map<string, bool>, enabled: bool)
    requires Distinct(order)
    ensures Distinct(Keep(order, state, enabled))
  {
    if order == [] {
    } else {
      var n := |order| - 1;
      KeepDistinct(order[..n], state, enabled);
      KeepSelects(order[..n], state, enabled, order[n]);
    }
  }

  lemma {:induction false} SeenNames(ts: seq<string>)
    requires CommaFree(ts) && NonEmpty(ts)
    ensures SeeAll(ts).Sightings? ==> CommaFree(SeeAll(ts).order) && NonEmpty(SeeAll(ts).order)
  {
    if ts == [] {
    } else {
      SeenNames(ts[..|ts| - 1]);
    }
  }

  /** Whatever decodes at all decodes to well-named lists. */
  lemma DecodedAreWellNamed(s: string)
    ensures var d := Decode(s); d.Features? ==> WellNamed(d.enabled, d.disabled)
  {
    hide Tokens, Keep, SeeAll;
    var d := SeeAll(Tokens(s));
    if d.Sightings? {
      TokensAre(s);
      SeenNames(Tokens(s));
      SeeAllConsistent(Tokens(s));
      var on, off := Keep(d.order, d.state, true), Keep(d.order, d.state, false);
      KeepDistinct(d.order, d.state, true);
      KeepDistinct(d.order, d.state, false);
      forall i | 0 <= i < |on + off|
        ensures (on + off)[i] in d.order && (on + off)[i] in d.state && (d.state[(on + off)[i]] <==> i < |on|)
      {
        KeepSelects(d.order, d.state, i < |on|, (on + off)[i]);
      }
    }
  }

  /** A pair of lists comes back from its encoding if and only if it is well-named. */
  lemma RoundTripExactly(features: seq<string>, disabled: seq<string>)
    ensures Decode(Encode(features, disabled)) == Features(features, disabled) <==> WellNamed(features, disabled)
  {
    hide Decode, Encode, WellNamed;
    DecodedAreWellNamed(Encode(features, disabled));
    if WellNamed(features, disabled) {
      WellNamedSurvive(features, disabled);
    }
  }

  /** Decoding is idempotent: what was decoded encodes to an equivalent string. */
  lemma DecodeIsStable(s: string)
    ensures var d := Decode(s); d.Features? ==> Decode(Encode(d.enabled, d.disabled)) == d
  {
    hide Decode, Encode, WellNamed;
    DecodedAreWellNamed(s);
    var d := Decode(s);
    if d.Features? {
      RoundTripExactly(d.enabled, d.disabled);
    }
  }

  // ---------- What decoding means on any string

  /** The last piece that names a feature, if any does. */
  ghost predicate IsLast(ts: seq<string>, i: nat, name: string)
    requires i < |ts|
  {
    NameOf(ts[i]) == name && forall j :: i < j < |ts| ==> NameOf(ts[j]) != name
  }

  lemma {:induction false} SeeAllLast(ts: seq<string>, name: string)
    requires SeeAll(ts).Sightings?
    ensures name in SeeAll(ts).state <==> exists i :: 0 <= i < |ts| && IsLast(ts, i, name)
    ensures name in SeeAll(ts).state ==>
      exists i :: 0 <= i < |ts| && IsLast(ts, i, name) && SeeAll(ts).state[name] == IsEnabling(ts[i])
  {
    if ts == [] {
    } else {
      hide IsEnabling, NameOf;
      var n := |ts| - 1;
      var init := ts[..n];
      SeeAllLast(init, name);
      if NameOf(ts[n]) == name {
        assert IsLast(ts, n, name);
      } else {
        forall i | 0 <= i < n ensures IsLast(ts, i, name) <==> IsLast(init, i, name) {
          assert forall j :: 0 <= j < n ==> ts[j] == init[j];
        }
      }
    }
  }

  lemma LastIsUnique(ts: seq<string>, i: nat, j: nat, name: string)
    requires i < |ts| && j < |ts| && IsLast(ts, i, name) && IsLast(ts, j, name)
    ensures i == j
  {
    hide NameOf;
  }

  /** On any string that decodes, a feature is enabled or disabled as the last piece that names it says. */
  lemma LastWins(s: string, name: string, enabled: bool)
    requires Decode(s).Features?
    ensures name in (if enabled then Decode(s).enabled else Decode(s).disabled) <==>
      exists i :: 0 <= i < |Tokens(s)| && IsLast(Tokens(s), i, name) && IsEnabling(Tokens(s)[i]) == enabled
  {
    hide Tokens, SeeAll, Keep, IsEnabling, IsLast;
    var ts, d := Tokens(s), SeeAll(Tokens(s));
    SeeAllLast(ts, name);
    SeeAllConsistent(ts);
    KeepSelects(d.order, d.state, enabled, name);
    assert (if enabled then Decode(s).enabled else Decode(s).disabled) == Keep(d.order, d.state, enabled);
    if name in d.state {
      var j :| 0 <= j < |ts| && IsLast(ts, j, name) && d.state[name] == IsEnabling(ts[j]);
      forall i | 0 <= i < |ts| && IsLast(ts, i, name) ensures i == j { LastIsUnique(ts, i, j, name); }
      assert name in Keep(d.order, d.state, enabled) <==> IsEnabling(ts[j]) == enabled;
    } else {
      assert name !in Keep(d.order, d.state, enabled);
    }
  }

  predicate IsBareSign(token: string) {
    IsSigned(token) && |token| < 2
  }

  lemma {:induction false} IllFormedExactly(ts: seq<string>)
    ensures SeeAll(ts).IllFormed? <==> exists i :: 0 <= i < |ts| && IsBareSign(ts[i])
  {
    if ts == [] {
    } else {
      var n := |ts| - 1;
      hide IsSigned, NameOf, IsEnabling;
      IllFormedExactly(ts[..n]);
      assert forall i :: 0 <= i < n ==> ts[..n][i] == ts[i];
    }
  }

  lemma BareSigns(token: string)
    ensures IsBareSign(token) <==> token == "+" || token == "-"
  {
    if IsBareSign(token) { assert token == [token[0]]; }
  }

  /** Decoding fails exactly on a piece that is a sign without a name. */
  lemma FailsExactly(s: string)
    ensures Decode(s).DecodeError? <==> "+" in Tokens(s) || "-" in Tokens(s)
  {
    hide Tokens, SeeAll, Keep, IsBareSign;
    var ts := Tokens(s);
    IllFormedExactly(ts);
    forall i | 0 <= i < |ts| ensures IsBareSign(ts[i]) <==> ts[i] == "+" || ts[i] == "-" { BareSigns(ts[i]); }
    assert Decode(s).DecodeError? <==> SeeAll(ts).IllFormed?;
  }

  /** A piece names a feature by itself, unless it starts with a sign, or after either sign; only the minus disables. */
  lemma PieceNames(token: string, name: string)
    requires token != ""
    ensures NameOf(token) == name <==>
            token == "+" + name || token == "-" + name || (token == name && token[0] != '+' && token[0] != '-')
    ensures IsEnabling(token) <==> token[0] != '-'
  {
    assert token == [token[0]] + token[1..];
  }

  // ---------- Looking one feature up

  predicate Enables(token: string, feature: string) {
    |token| > 1 && token[0] == '+' && token[1..] == feature
  }

  ghost predicate Has(ts: seq<string>, feature: string) {
    exists i :: 0 <= i < |ts| && Enables(ts[i], feature)
  }

  lemma HasAppend(a: seq<string>, b: seq<string>, feature: string)
    ensures Has(a + b, feature) <==> Has(a, feature) || Has(b, feature)
  {
    hide Enables;
    if i :| 0 <= i < |a| && Enables(a[i], feature) { assert (a + b)[i] == a[i]; }
    if i :| 0 <= i < |b| && Enables(b[i], feature) { assert (a + b)[|a| + i] == b[i]; }
  }

  /** Lookup in the first piece and in what follows it. */
  lemma HasInPieces(s: string, feature: string)
    requires s != ""
    ensures Has(Tokens(s), feature) <==> Enables(s[..FirstComma(s)], feature) || Has(Tokens(AfterComma(s)), feature)
  {
    hide FirstComma, AfterComma;
    var head := s[..FirstComma(s)];
    if head != "" {
      assert Has([head], feature) <==> Enables(head, feature) by {
        if Enables(head, feature) { assert Enables([head][0], feature); }
      }
      HasAppend([head], Tokens(AfterComma(s)), feature);
    } else {
      assert Tokens(s) == Tokens(AfterComma(s));
    }
  }

  method HasFeature(featureStr: string, feature: string) returns (found: bool)
    ensures found <==> Has(Tokens(featureStr), feature)
  {
    hide FirstComma, Enables, Tokens, Has;
    var remaining := featureStr;
    while remaining != ""
      invariant Has(Tokens(featureStr), feature) <==> Has(Tokens(remaining), feature)
      decreases |remaining|
    {
      HasInPieces(remaining, feature);
      var token := remaining[..FirstComma(remaining)];
      if Enables(token, feature) {
        return true;
      }
      remaining := AfterComma(remaining);
    }
    NothingInNothing(feature);
    return false;
  }

  lemma NothingInNothing(feature: string)
    ensures !Has(Tokens(""), feature)
  {
  }

  /** On an encoding, lookup finds exactly the (non-empty) enabled names, whatever the disabled ones are. */
  lemma HasExactlyTheFeatures(features: seq<string>, disabled: seq<string>, feature: string)
    requires CommaFree(features + disabled)
    ensures Has(Tokens(Encode(features, disabled)), feature) <==> feature in features && feature != ""
  {
    hide Tokens, Encode;
    SignedTokens(features, disabled);
    var ts := Signed('+', features) + Signed('-', disabled);
    if feature in features && feature != "" {
      var i :| 0 <= i < |features| && features[i] == feature;
      assert Enables(ts[i], feature);
    }
    if i :| 0 <= i < |ts| && Enables(ts[i], feature) {
      assert i < |features|;
      assert ts[i][1..] == features[i];
    }
  }

  /** Seeing a name enabled and then disabled leaves it disabled. */
  lemma SeeTwice(plus: string, minus: string, feature: string)
    requires feature != "" && plus == "+" + feature && minus == "-" + feature
    ensures SeeAll([plus, minus]) == Sightings([feature], map[feature := false])
  {
    var ts := [plus, minus];
    assert SeeAll(ts[..0]) == Sightings([], map[]);
    hide SeeAll;
    SeeAllSteps(ts, 0);
    SeeAllSteps(ts, 1);
    assert ts[..2] == ts;
    assert plus[1..] == feature && minus[1..] == feature;
    assert map[feature := true][feature := false] == map[feature := false];
  }

  /** Lookup ignores a later disabling that decoding honours. */
  lemma LookupIgnoresLastWins(feature: string)
    requires feature != "" && ',' !in feature
    ensures Has(Tokens(Encode([feature], [feature])), feature)
    ensures Decode(Encode([feature], [feature])) == Features([], [feature])
  {
    hide Tokens, Encode, Has, SeeAll, Keep;
    HasExactlyTheFeatures([feature], [feature], feature);
    SignedTokens([feature], [feature]);
    assert Signed('+', [feature]) + Signed('-', [feature]) == ["+" + feature, "-" + feature];
    SeeTwice("+" + feature, "-" + feature, feature);
    KeepUniform([feature], map[feature := false], false, true);
    KeepUniform([feature], map[feature := false], false, false);
  }

  /** Lookup never finds a name written without a sign, which decoding enables. */
  lemma UnsignedIsNotFound(feature: string)
    requires feature != "" && ',' !in feature && feature[0] != '+' && feature[0] != '-'
    ensures !Has(Tokens(feature), feature)
    ensures Decode(feature) == Features([feature], [])
  {
    assert Tokens(feature) == [feature] by {
      TokensOfJoin([feature]);
    }
    var ts := [feature];
    hide Tokens, Keep;
    assert SeeAll(ts) == Sightings([feature], map[feature := true]) by {
      SeeAllSteps(ts, 0);
      assert ts[..1] == ts && SeeAll(ts[..0]) == Sightings([], map[]);
    }
    hide SeeAll;
    KeepUniform([feature], map[feature := true], true, true);
    KeepUniform([feature], map[feature := true], true, false);
  }

  lemma HasIsAPiece(ts: seq<string>, feature: string)
    requires feature != ""
    ensures Has(ts, feature) <==> "+" + feature in ts
  {
    if i :| 0 <= i < |ts| && Enables(ts[i], feature) {
      assert ts[i] == "+" + feature;
    }
    if "+" + feature in ts {
      var i :| 0 <= i < |ts| && ts[i] == "+" + feature;
      assert Enables(ts[i], feature);
    }
  }

  /** If the last piece naming the feature disables it, no piece is the plus form; if it is unsigned, some piece is. */
  ghost predicate Settled(ts: seq<string>, feature: string) {
    forall i :: 0 <= i < |ts| && IsLast(ts, i, feature) ==>
      && (ts[i] == "-" + feature ==> "+" + feature !in ts)
      && (ts[i] == feature ==> "+" + feature in ts)
  }

  /** A piece with a name is the name itself or the name after a sign. */
  lemma PieceForms(token: string, feature: string)
    requires NameOf(token) == feature != ""
    ensures token == feature || token == "+" + feature || token == "-" + feature
    ensures IsEnabling(token) <==> token != "-" + feature
  {
    if IsSigned(token) { assert token == [token[0]] + token[1..]; }
  }

  lemma {:induction false} SomeIsLast(ts: seq<string>, feature: string, i: nat) returns (k: nat)
    requires i < |ts| && NameOf(ts[i]) == feature
    ensures i <= k < |ts| && IsLast(ts, k, feature)
    decreases |ts| - i
  {
    hide NameOf;
    if j :| i < j < |ts| && NameOf(ts[j]) == feature {
      k := SomeIsLast(ts, feature, j);
    } else {
      k := i;
    }
  }

  /** A string that decodes names no feature by the empty text. */
  lemma NamesAreNotEmpty(s: string, i: nat)
    requires Decode(s).Features? && i < |Tokens(s)|
    ensures NameOf(Tokens(s)[i]) != ""
  {
    hide Tokens, Decode;
    FailsExactly(s);
    TokensAre(s);
    BareSigns(Tokens(s)[i]);
  }

  /** On a string that decodes, lookup and decoding agree on a feature if and only if the feature is settled. */
  lemma LookupAgreesExactly(s: string, feature: string)
    requires Decode(s).Features?
    ensures (Has(Tokens(s), feature) <==> feature in Decode(s).enabled) <==> Settled(Tokens(s), feature)
  {
    hide Tokens, Decode, Enables, IsEnabling, NameOf, IsLast;
    var ts := Tokens(s);
    LastWins(s, feature, true);
    if i :| 0 <= i < |ts| && IsLast(ts, i, feature) {
      NamedFeature(s, feature, i);
      HasIsAPiece(ts, feature);
      forall j | 0 <= j < |ts| && IsLast(ts, j, feature) ensures j == i { LastIsUnique(ts, i, j, feature); }
    } else {
      UnnamedIsNotFound(ts, feature);
    }
  }

  lemma NamedFeature(s: string, feature: string, i: nat)
    requires Decode(s).Features? && i < |Tokens(s)| && IsLast(Tokens(s), i, feature)
    ensures feature != ""
    ensures var t := Tokens(s)[i];
      && (t == feature || t == "+" + feature || t == "-" + feature)
      && (IsEnabling(t) <==> t != "-" + feature)
  {
    hide Tokens, Decode;
    NamesAreNotEmpty(s, i);
    PieceForms(Tokens(s)[i], feature);
  }

  lemma UnnamedIsNotFound(ts: seq<string>, feature: string)
    requires forall i :: 0 <= i < |ts| ==> !IsLast(ts, i, feature)
    ensures !Has(ts, feature)
  {
    hide IsLast;
    if i :| 0 <= i < |ts| && Enables(ts[i], feature) {
      var k := SomeIsLast(ts, feature, i);
    }
  }

  // ---------- SIMD widths

  predicate Contains(s: string, sub: string) {
    sub <= s || (s != "" && Contains(s[1..], sub))
  }

  function WidthOf(feature: string): nat {
    if Contains(feature, "avx512") then 512 else if Contains(feature, "avx2") then 256 else 128
  }

  function TrimPlus(s: string): string {
    if s != "" && s[0] == '+' then TrimPlus(s[1..]) else s
  }

  /** The widest of the base width and every listed feature. */
  ghost predicate IsWidest(width: nat, features: seq<string>) {
    && (width == 128 || exists i :: 0 <= i < |features| && WidthOf(features[i]) == width)
    && width >= 128
    && forall i :: 0 <= i < |features| ==> WidthOf(features[i]) <= width
  }

  /** The list form, which stops at the widest width there is. */
  method WidthFromList(features: seq<string>) returns (width: nat)
    ensures IsWidest(width, features)
  {
    hide Contains;
    width := 128;
    for i := 0 to |features|
      invariant IsWidest(width, features[..i])
    {
      width := if WidthOf(features[i]) > width then WidthOf(features[i]) else width;
      if width == 512 {
        assert features[..i + 1][i] == features[i];
        return;
      }
    }
    assert features[..|features|] == features;
  }

  function Enabled(ts: seq<string>): seq<string> {
    if ts == [] then [] else
    var t := ts[|ts| - 1];
    Enabled(ts[..|ts| - 1]) + (if t == "" || t[0] == '-' then [] else [TrimPlus(t)])
  }

  /** The string form, which skips disabled names and drops leading plus signs. */
  method WidthFromString(featureStr: string) returns (width: nat)
    ensures IsWidest(width, Enabled(Tokens(featureStr)))
  {
    hide Contains, TrimPlus, Tokens, Enabled, IsWidest;
    width := 128;
    WidestOfNone();
    var tokens := Tokens(featureStr);
    for i := 0 to |tokens|
      invariant IsWidest(width, Enabled(tokens[..i]))
    {
      var t := tokens[i];
      EnabledSteps(tokens, i);
      if t != "" && t[0] != '-' {
        var w := WidthOf(TrimPlus(t));
        WidestGrows(width, Enabled(tokens[..i]), TrimPlus(t));
        width := if w > width then w else width;
      }
    }
    assert tokens[..|tokens|] == tokens;
  }

  lemma WidestOfNone()
    ensures IsWidest(128, Enabled([]))
  {
  }

  lemma EnabledSteps(ts: seq<string>, i: nat)
    requires i < |ts|
    ensures var t := ts[i];
      Enabled(ts[..i + 1]) == if t == "" || t[0] == '-' then Enabled(ts[..i]) else Enabled(ts[..i]) + [TrimPlus(t)]
  {
    assert ts[..i + 1][..i] == ts[..i];
  }

  lemma WidestGrows(width: nat, features: seq<string>, feature: string)
    requires IsWidest(width, features)
    ensures IsWidest(if WidthOf(feature) > width then WidthOf(feature) else width, features + [feature])
  {
    hide WidthOf;
    var more := features + [feature];
    assert more[|features|] == feature;
    forall i | 0 <= i < |features| ensures more[i] == features[i] {}
  }

  lemma WidestIsUnique(w: nat, v: nat, features: seq<string>)
    requires IsWidest(w, features) && IsWidest(v, features)
    ensures w == v
  {
    hide WidthOf;
  }

  lemma PlusIsNotContained(s: string, sub: string)
    requires s != "" && s[0] == '+' && sub != "" && sub[0] != '+'
    ensures Contains(s, sub) <==> Contains(s[1..], sub)
  {
  }

  lemma {:induction false} TrimKeepsWidth(s: string)
    ensures WidthOf(TrimPlus(s)) == WidthOf(s)
  {
    if s != "" && s[0] == '+' {
      hide Contains;
      TrimKeepsWidth(s[1..]);
      PlusIsNotContained(s, "avx512");
      PlusIsNotContained(s, "avx2");
    }
  }

  lemma {:induction false} EnabledSigned(features: seq<string>, disabled: seq<string>)
    ensures var on := Enabled(Signed('+', features) + Signed('-', disabled));
      |on| == |features| && forall i :: 0 <= i < |on| ==> on[i] == TrimPlus(features[i])
    decreases |features| + |disabled|
  {
    var ts := Signed('+', features) + Signed('-', disabled);
    if disabled != [] {
      var n := |disabled| - 1;
      EnabledSigned(features, disabled[..n]);
      assert ts[..|ts| - 1] == Signed('+', features) + Signed('-', disabled[..n]);
    } else if features != [] {
      var n := |features| - 1;
      EnabledSigned(features[..n], []);
      assert ts[..|ts| - 1] == Signed('+', features[..n]) + Signed('-', []);
      assert ts[n][1..] == features[n];
    }
  }

  /** Both width functions agree on a feature list and its encoding. */
  lemma WidthsAgree(features: seq<string>, disabled: seq<string>, width: nat)
    requires CommaFree(features + disabled)
    ensures IsWidest(width, Enabled(Tokens(Encode(features, disabled)))) <==> IsWidest(width, features)
  {
    SignedTokens(features, disabled);
    EnabledSigned(features, disabled);
    hide Tokens, Encode, WidthOf, TrimPlus, Enabled, Signed;
    var on := Enabled(Signed('+', features) + Signed('-', disabled));
    forall i | 0 <= i < |features| ensures WidthOf(on[i]) == WidthOf(features[i]) {
      TrimKeepsWidth(features[i]);
    }
  }

  // ---------- Widths by what a name contains

  lemma {:induction false} ContainsExactly(s: string, sub: string)
    ensures Contains(s, sub) <==> exists i :: 0 <= i <= |s| && sub <= s[i..]
  {
    if s == "" {
      assert s[0..] == s;
    } else {
      ContainsExactly(s[1..], sub);
      if i :| 0 <= i <= |s| && sub <= s[i..] {
        if i > 0 { assert s[i..] == s[1..][i - 1..]; } else { assert s[0..] == s; }
      }
      if i :| 0 <= i <= |s[1..]| && sub <= s[1..][i..] { assert s[1..][i..] == s[i + 1..]; }
      if sub <= s { assert s[0..] == s; }
    }
  }

  ghost predicate Holds(s: string, sub: string) {
    exists i :: 0 <= i <= |s| && sub <= s[i..]
  }

  /** A name that holds avx512 is 512 bits wide, one that holds only avx2 is 256, and any other 128. */
  lemma WidthExactly(feature: string)
    ensures Holds(feature, "avx512") ==> WidthOf(feature) == 512
    ensures !Holds(feature, "avx512") && Holds(feature, "avx2") ==> WidthOf(feature) == 256
    ensures !Holds(feature, "avx512") && !Holds(feature, "avx2") ==> WidthOf(feature) == 128
  {
    hide Contains;
    ContainsExactly(feature, "avx512");
    ContainsExactly(feature, "avx2");
  }

  // ---------- The order of decoded names

  /** The first piece that names a feature. */
  ghost predicate IsFirst(ts: seq<string>, i: nat, name: string)
    requires i < |ts|
  {
    NameOf(ts[i]) == name && forall j :: 0 <= j < i ==> NameOf(ts[j]) != name
  }

  /** Names are listed where the pieces that first name them stand. */
  ghost predicate InOrder(ts: seq<string>, names: seq<string>) {
    forall a, b, i, j | 0 <= a < b < |names| && 0 <= i < |ts| && 0 <= j < |ts|
      :: IsFirst(ts, i, names[a]) && IsFirst(ts, j, names[b]) ==> i < j
  }

  lemma ListedIsNamed(ts: seq<string>, name: string)
    requires SeeAll(ts).Sightings? && name in SeeAll(ts).order
    ensures exists i :: 0 <= i < |ts| && NameOf(ts[i]) == name
  {
    SeeAllConsistent(ts);
    SeeAllLast(ts, name);
    hide SeeAll, NameOf;
    var i :| 0 <= i < |ts| && IsLast(ts, i, name);
  }

  lemma FirstInPrefix(ts: seq<string>, n: nat, i: nat, name: string)
    requires n <= |ts| && i < |ts| && IsFirst(ts, i, name)
    requires exists j :: 0 <= j < n && NameOf(ts[j]) == name
    ensures i < n && IsFirst(ts[..n], i, name)
  {
    hide NameOf;
    var j :| 0 <= j < n && NameOf(ts[j]) == name;
    assert forall m :: 0 <= m < n ==> ts[..n][m] == ts[m];
  }

  lemma {:induction false} SeenInOrder(ts: seq<string>)
    ensures SeeAll(ts).Sightings? ==> InOrder(ts, SeeAll(ts).order)
  {
    if ts == [] || SeeAll(ts).IllFormed? {
    } else {
      var n := |ts| - 1;
      var init := ts[..n];
      SeenInOrder(init);
      SeeAllConsistent(init);
      var before, after := SeeAll(init).order, SeeAll(ts).order;
      assert after == before || (after == before + [NameOf(ts[n])] && NameOf(ts[n]) !in before);
      forall a, b, i, j | 0 <= a < b < |after| && 0 <= i < |ts| && 0 <= j < |ts| &&
        IsFirst(ts, i, after[a]) && IsFirst(ts, j, after[b]) ensures i < j
      {
        NamedBefore(ts, n, before[a], i);
        if b < |before| {
          NamedBefore(ts, n, before[b], j);
        } else {
          NewNameIsLast(ts, j, NameOf(ts[n]));
        }
      }
    }
  }

  lemma NamedBefore(ts: seq<string>, n: nat, name: string, i: nat)
    requires n == |ts| - 1 && SeeAll(ts[..n]).Sightings? && name in SeeAll(ts[..n]).order
    requires i < |ts| && IsFirst(ts, i, name)
    ensures i < n && IsFirst(ts[..n], i, name)
  {
    ListedIsNamed(ts[..n], name);
    var j :| 0 <= j < n && NameOf(ts[..n][j]) == name;
    hide SeeAll, NameOf;
    assert ts[..n][j] == ts[j];
    FirstInPrefix(ts, n, i, name);
  }

  lemma NewNameIsLast(ts: seq<string>, j: nat, name: string)
    requires ts != [] && SeeAll(ts[..|ts| - 1]).Sightings? && name !in SeeAll(ts[..|ts| - 1]).order
    requires j < |ts| && IsFirst(ts, j, name)
    ensures j == |ts| - 1
  {
    var init := ts[..|ts| - 1];
    SeeAllConsistent(init);
    SeeAllLast(init, name);
    if j < |ts| - 1 {
      var k := SomeIsLast(init, name, j);
    }
  }

  lemma {:induction false} KeptInOrder(ts: seq<string>, order: seq<string>, state: map<string, bool>, enabled: bool)
    requires InOrder(ts, order)
    ensures InOrder(ts, Keep(order, state, enabled))
  {
    hide IsFirst;
    if order == [] {
    } else {
      var n := |order| - 1;
      KeptInOrder(ts, order[..n], state, enabled);
      var kept := Keep(order[..n], state, enabled);
      forall a | 0 <= a < |kept| ensures kept[a] in order[..n] {
        KeepSelects(order[..n], state, enabled, kept[a]);
      }
    }
  }

  /** Both decoded lists name their features in the order the string first names them. */
  lemma DecodedInOrder(s: string)
    requires Decode(s).Features?
    ensures InOrder(Tokens(s), Decode(s).enabled) && InOrder(Tokens(s), Decode(s).disabled)
  {
    hide InOrder, SeeAll, Keep, Tokens;
    var ts, d := Tokens(s), SeeAll(Tokens(s));
    SeenInOrder(ts);
    KeptInOrder(ts, d.order, d.state, true);
    KeptInOrder(ts, d.order, d.state, false);
  }

  /** The pieces that count for the width are those that do not disable, signed or not. */
  lemma {:induction false} EnabledExactly(ts: seq<string>, x: string)
    ensures x in Enabled(ts) <==> exists i :: 0 <= i < |ts| && ts[i] != "" && ts[i][0] != '-' && x == TrimPlus(ts[i])
  {
    hide TrimPlus;
    if ts == [] {
    } else {
      var n := |ts| - 1;
      EnabledExactly(ts[..n], x);
      assert forall i :: 0 <= i < n ==> ts[..n][i] == ts[i];
    }
  }

  /** Trimming takes every leading plus sign and nothing else. */
  lemma {:induction false} TrimExactly(s: string)
    ensures |TrimPlus(s)| <= |s| && TrimPlus(s) == s[|s| - |TrimPlus(s)|..]
    ensures forall i :: 0 <= i < |s| - |TrimPlus(s)| ==> s[i] == '+'
    ensures TrimPlus(s) != "" ==> TrimPlus(s)[0] != '+'
  {
    if s == "" || s[0] != '+' {
    } else {
      var tail := s[1..];
      TrimExactly(tail);
      assert forall i :: 1 <= i < |s| ==> s[i] == tail[i - 1];
    }
  }
}
