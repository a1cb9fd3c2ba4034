/** Whether a provided target satisfies a required one. */
module Requirements {

  import opened ByteStrings

  // ---------- Versioned names

  datatype VersionedName = VersionedName(full: string, base: string, version: nat)

  predicate IsDigit(c: char) {
    '0' <= c <= '9'
  }

  /** The decimal value of a run of digits. */
  function Decimal(s: string): nat
    requires forall i :: 0 <= i < |s| ==> IsDigit(s[i])
  {
    if s == "" then 0 else
    var last := s[|s| - 1];
    assert IsDigit(last);
    Decimal(s[..|s| - 1]) * 10 + (last as int - '0' as int)
  }

  const VERSION_LIMIT: nat := 0x1_0000_0000_0000_0000

  /** A name such as sm_80 has base sm and version 80; any other name is its own base. */
  function DecodeName(name: string): (v: VersionedName)
    ensures v.full == name
    ensures name != "" ==> v.base != ""
    ensures v.base == name || v.base == "sm"
  {
    if "sm_" <= name && |name| > 3 && (forall i :: 3 <= i < |name| ==> IsDigit(name[i]))
       && Decimal(name[3..]) < VERSION_LIMIT
    then VersionedName(name, "sm", Decimal(name[3..]))
    else VersionedName(name, name, 0)
  }

  /** The decimal digits of a number. */
  function Digits(n: nat): (s: string)
    ensures s != "" && forall i :: 0 <= i < |s| ==> IsDigit(s[i])
  {
    (if n < 10 then "" else Digits(n / 10)) + ['0' + (n % 10) as char]
  }

  lemma {:induction false} DecimalOfDigits(n: nat)
    ensures Decimal(Digits(n)) == n
  {
    var s := Digits(n);
    if n >= 10 {
      DecimalOfDigits(n / 10);
      assert s[..|s| - 1] == Digits(n / 10);
    }
  }

  /** Every version number below the limit is read back; at the limit the name is opaque again. */
  lemma VersionsReadBack(n: nat)
    ensures var name := "sm_" + Digits(n);
      DecodeName(name) ==
      if n < 0x1_0000_0000_0000_0000 then VersionedName(name, "sm", n) else VersionedName(name, name, 0)
  {
    hide Decimal, Digits;
    var name := "sm_" + Digits(n);
    assert name[3..] == Digits(n);
    assert forall i :: 3 <= i < |name| ==> name[i] == Digits(n)[i - 3];
    DecimalOfDigits(n);
  }

  predicate AtMost(a: VersionedName, b: VersionedName) {
    a.base == b.base && a.version <= b.version
  }

  // ---------- Triples

  datatype OS = UnknownOS | Darwin | MacOSX | OtherOS(name: string)

  /** A parsed triple. Which architecture names are recognised is a parameter of the check. */
  datatype Triple = Triple(text: string, archName: string, os: OS)

  /** Both spellings of the 64-bit ARM architecture are recognised, and the empty name is not. */
  ghost predicate Recogniser(known: string -> bool) {
    known("arm64") && known("aarch64") && !known("")
  }

  function CanonArch(name: string): string {
    if name == "aarch64" then "arm64" else name
  }

  function CanonOS(os: OS): OS {
    if os.Darwin? then MacOSX else os
  }

  /** The triple of the empty text has neither architecture nor operating system. */
  ghost predicate Parsed(t: Triple) {
    t.text == "" ==> t.archName == "" && t.os.UnknownOS?
  }

  // ---------- Targets and the outcome of the check

  datatype Target = Target(triple: Triple, arch: string, features: seq<string>, disabled: seq<string>, abi: string)

  datatype Complaint = Disabled | Missing | TooOld(have: string)

  datatype Outcome =
    | Satisfied
    | WrongArchitecture
    | WrongOS
    | WrongArch
    | MissingFeatures(complaints: map<string, Complaint>)
    | WrongABI

  function CheckTriple(known: string -> bool, provided: Triple, required: Triple): Outcome {
    if required.text == "" then Satisfied
    else if known(required.archName) && CanonArch(provided.archName) != CanonArch(required.archName) then
      WrongArchitecture
    else if !CanonOS(required.os).UnknownOS? && CanonOS(provided.os) != CanonOS(required.os) then WrongOS
    else Satisfied
  }

  function CheckArch(provided: string, required: string): Outcome {
    if required == "" || AtMost(DecodeName(required), DecodeName(provided)) then Satisfied else WrongArch
  }

  function CheckABI(provided: string, required: string): Outcome {
    if required == "" || provided == required then Satisfied else WrongABI
  }

  // ---------- Features

  predicate Ignored(feature: string) {
    feature == "64Bit" || feature == "shstk" || feature == "cmov"
  }

  /** What one more feature does to the parsed map: the first name of a base wins. */
  function Add(m: map<string, VersionedName>, feature: string): map<string, VersionedName> {
    var v := DecodeName(feature);
    if Ignored(feature) || v.base in m then m else m[v.base := v]
  }

  function Parse(features: seq<string>): map<string, VersionedName> {
    if features == [] then map[] else Add(Parse(features[..|features| - 1]), features[|features| - 1])
  }

  method ParseFeatures(features: seq<string>) returns (m: map<string, VersionedName>)
    ensures m == Parse(features)
  {
    m := map[];
    for i := 0 to |features|
      invariant m == Parse(features[..i])
    {
      hide DecodeName;
      assert features[..i + 1][..i] == features[..i];
      if features[i] == "64Bit" || features[i] == "shstk" || features[i] == "cmov" {
        continue;
      }
      var v := DecodeName(features[i]);
      if v.base !in m {
        m := m[v.base := v];
      }
    }
    assert features[..|features|] == features;
  }

  ghost predicate Names(feature: string, base: string) {
    !Ignored(feature) && DecodeName(feature).base == base
  }

  ghost predicate IsFirst(features: seq<string>, i: nat, base: string)
    requires i < |features|
  {
    Names(features[i], base) && forall j :: 0 <= j < i ==> !Names(features[j], base)
  }

  /** A base is in the map exactly when a feature names it, and then with the first such feature. */
  lemma {:induction false} ParseIsFirst(features: seq<string>, base: string)
    ensures base in Parse(features) <==> exists i :: 0 <= i < |features| && Names(features[i], base)
    ensures base in Parse(features) ==>
      exists i :: 0 <= i < |features| && IsFirst(features, i, base) && Parse(features)[base] == DecodeName(features[i])
  {
    if features == [] {
    } else {
      hide DecodeName, Ignored;
      var n := |features| - 1;
      var before := features[..n];
      ParseIsFirst(before, base);
      assert forall i :: 0 <= i < n ==> features[i] == before[i];
      if base in Parse(before) {
        var i :| 0 <= i < n && IsFirst(before, i, base) && Parse(before)[base] == DecodeName(before[i]);
        assert IsFirst(features, i, base);
      } else if Names(features[n], base) {
        assert IsFirst(features, n, base);
      }
    }
  }

  /** Why a required feature is not met, if it is not. */
  function Objection(base: string, required: VersionedName, provided: map<string, VersionedName>,
                     disabled: map<string, VersionedName>): Option<Complaint>
  {
    if base in disabled then Some(Disabled)
    else if base !in provided then Some(Missing)
    else if AtMost(required, provided[base]) then None
    else Some(TooOld(provided[base].full))
  }

  function Complaints(provided: seq<string>, disabled: seq<string>, required: seq<string>): map<string, Complaint> {
    var p, d, r := Parse(provided), Parse(disabled), Parse(required);
    map base | base in r && Objection(base, r[base], p, d).Some? :: Objection(base, r[base], p, d).value
  }

  function CheckFeatures(provided: seq<string>, disabled: seq<string>, required: seq<string>): Outcome {
    var c := Complaints(provided, disabled, required);
    if c == map[] then Satisfied else MissingFeatures(c)
  }

  lemma ParsedFrom(features: seq<string>, base: string) returns (f: string)
    requires base in Parse(features)
    ensures f in features && !Ignored(f) && Parse(features)[base] == DecodeName(f) && DecodeName(f).base == base
  {
    hide DecodeName;
    ParseIsFirst(features, base);
    var i :| 0 <= i < |features| && IsFirst(features, i, base) && Parse(features)[base] == DecodeName(features[i]);
    f := features[i];
  }

  lemma BaseIsOwn(features: seq<string>, base: string)
    requires base in Parse(features)
    ensures Parse(features)[base].base == base
  {
    hide DecodeName;
    var f := ParsedFrom(features, base);
  }

  /** A report says of a base what is wrong with it: that it is disabled, or else missing, or else provided in an older
      version, which is named; and it names only required bases. */
  ghost predicate ReportsOn(c: map<string, Complaint>, provided: seq<string>, disabled: seq<string>,
                            required: seq<string>, base: string)
  {
    var p, d, r := Parse(provided), Parse(disabled), Parse(required);
    && (base in c ==> base in r)
    && (base in c && c[base] == Disabled <==> base in r && base in d)
    && (base in c && c[base] == Missing <==> base in r && base !in d && base !in p)
    && (base in c && c[base].TooOld? <==> base in r && base !in d && base in p && p[base].version < r[base].version)
    && (base in c && c[base].TooOld? ==> c[base].have == p[base].full)
  }

  /** Each required base that is not met is complained about, disabled before missing before too old. */
  lemma ComplaintsExactly(provided: seq<string>, disabled: seq<string>, required: seq<string>, base: string)
    ensures ReportsOn(Complaints(provided, disabled, required), provided, disabled, required, base)
  {
    if base in Parse(required) { BaseIsOwn(required, base); }
    if base in Parse(provided) { BaseIsOwn(provided, base); }
    hide Parse;
  }

  /** Walks the required map in whatever order it is stored. */
  method SatisfiesFeatures(provided: seq<string>, disabled: seq<string>, required: seq<string>) returns (r: Outcome)
    ensures r == CheckFeatures(provided, disabled, required)
    ensures r.Satisfied? || r.MissingFeatures?
    ensures r.MissingFeatures? ==> r.complaints != map[]
    ensures r.MissingFeatures? ==> forall base :: ReportsOn(r.complaints, provided, disabled, required, base)
  {
    hide Parse;
    if required == [] {
      NothingRequired(provided, disabled);
      return Satisfied;
    }
    var providedMap := ParseFeatures(provided);
    var disabledMap := ParseFeatures(disabled);
    var requiredMap := ParseFeatures(required);
    var complaints: map<string, Complaint> := map[];
    var todo := requiredMap.Keys;
    while todo != {}
      invariant todo <= requiredMap.Keys
      invariant complaints == map base | base in requiredMap.Keys - todo
        && Objection(base, requiredMap[base], providedMap, disabledMap).Some?
        :: Objection(base, requiredMap[base], providedMap, disabledMap).value
      decreases |todo|
    {
      var base :| base in todo;
      todo := todo - {base};
      if base in disabledMap {
        complaints := complaints[base := Disabled];
      } else if base !in providedMap {
        complaints := complaints[base := Missing];
      } else if !AtMost(requiredMap[base], providedMap[base]) {
        complaints := complaints[base := TooOld(providedMap[base].full)];
      }
    }
    assert complaints == Complaints(provided, disabled, required);
    forall base ensures ReportsOn(complaints, provided, disabled, required, base) {
      ComplaintsExactly(provided, disabled, required, base);
    }
    r := if complaints == map[] then Satisfied else MissingFeatures(complaints);
  }

  lemma NothingRequired(provided: seq<string>, disabled: seq<string>)
    ensures CheckFeatures(provided, disabled, []) == Satisfied
  {
  }

  /** Every part in turn; the first failure is reported. */
  function Check(known: string -> bool, provided: Target, required: Target): Outcome {
    var triple := CheckTriple(known, provided.triple, required.triple);
    var arch := CheckArch(provided.arch, required.arch);
    var features := CheckFeatures(provided.features, provided.disabled, required.features);
    if !triple.Satisfied? then triple
    else if !arch.Satisfied? then arch
    else if !features.Satisfied? then features
    else CheckABI(provided.abi, required.abi)
  }

  /** The features are satisfied when every required base is enabled, and at least as new. */
  lemma FeaturesSatisfied(provided: seq<string>, disabled: seq<string>, required: seq<string>)
    ensures CheckFeatures(provided, disabled, required).Satisfied? <==>
      forall base :: base in Parse(required) ==>
        base !in Parse(disabled) && base in Parse(provided) && AtMost(Parse(required)[base], Parse(provided)[base])
  {
    hide Parse;
    var c := Complaints(provided, disabled, required);
    if c == map[] {
      forall base | base in Parse(required)
        ensures base !in Parse(disabled) && base in Parse(provided)
        ensures AtMost(Parse(required)[base], Parse(provided)[base])
      {
        assert base !in c;
      }
    } else {
      var base :| base in c;
      assert Objection(base, Parse(required)[base], Parse(provided), Parse(disabled)).Some?;
    }
  }

  /** A versioned architecture is satisfied exactly by the same or a newer version. */
  lemma ArchByVersion(m: nat, n: nat)
    requires m < VERSION_LIMIT && n < VERSION_LIMIT
    ensures CheckArch("sm_" + Digits(m), "sm_" + Digits(n)).Satisfied? <==> n <= m
  {
    hide DecodeName;
    VersionsReadBack(m);
    VersionsReadBack(n);
  }

  /** A name of the versioned family: the bare base, or the base with a version that fits. */
  predicate InFamily(name: string) {
    DecodeName(name).base == "sm"
  }

  /** A required architecture is met by the same name, or within the versioned family by a version at least as high;
      the bare family name counts as version zero. */
  ghost predicate ArchMet(provided: string, required: string) {
    || required == ""
    || provided == required
    || (InFamily(provided) && InFamily(required) && DecodeName(required).version <= DecodeName(provided).version)
  }

  lemma ArchExactly(provided: string, required: string)
    ensures CheckArch(provided, required).Satisfied? <==> ArchMet(provided, required)
  {
    hide Decimal;
  }

  /** The bare family name is a member of the family with version zero. */
  lemma BareFamilyName(n: nat)
    requires n < VERSION_LIMIT
    ensures CheckArch("sm_" + Digits(n), "sm").Satisfied?
    ensures CheckArch("sm", "sm_" + Digits(n)).Satisfied? <==> n == 0
  {
    hide Decimal, Digits;
    VersionsReadBack(n);
  }

  /** The architectures agree up to the two spellings, if the required triple fixes one. */
  ghost predicate SameArchitecture(known: string -> bool, provided: Triple, required: Triple) {
    required.text != "" && known(required.archName) ==>
      || provided.archName == required.archName
      || (provided.archName == "arm64" && required.archName == "aarch64")
      || (provided.archName == "aarch64" && required.archName == "arm64")
  }

  /** The systems agree up to the two names, if the required triple fixes one. */
  ghost predicate SameSystem(provided: Triple, required: Triple) {
    required.text != "" && required.os != UnknownOS ==>
      || provided.os == required.os
      || (provided.os == Darwin && required.os == MacOSX)
      || (provided.os == MacOSX && required.os == Darwin)
  }

  /** Which of the two is wrong; the architecture is looked at first. */
  lemma TriplesExactly(known: string -> bool, provided: Triple, required: Triple)
    ensures var r := CheckTriple(known, provided, required);
      && (r == WrongArchitecture <==> !SameArchitecture(known, provided, required))
      && (r == WrongOS <==> SameArchitecture(known, provided, required) && !SameSystem(provided, required))
      && (r == Satisfied <==> SameArchitecture(known, provided, required) && SameSystem(provided, required))
  {
  }

  lemma ArchOutcomes(provided: string, required: string)
    ensures CheckArch(provided, required) in {Satisfied, WrongArch}
  {
  }

  /** The whole check, part by part; a later part is reported only when every earlier one is met. */
  lemma CheckExactly(known: string -> bool, provided: Target, required: Target)
    ensures var r := Check(known, provided, required);
      var machine := SameArchitecture(known, provided.triple, required.triple);
      var system := SameSystem(provided.triple, required.triple);
      var arch := ArchMet(provided.arch, required.arch);
      var features := CheckFeatures(provided.features, provided.disabled, required.features).Satisfied?;
      var abi := required.abi in {"", provided.abi};
      && (r == WrongArchitecture <==> !machine)
      && (r == WrongOS <==> machine && !system)
      && (r == WrongArch <==> machine && system && !arch)
      && (r.MissingFeatures? <==> machine && system && arch && !features)
      && (r == WrongABI <==> machine && system && arch && features && !abi)
      && (r == Satisfied <==> machine && system && arch && features && abi)
  {
    TriplesExactly(known, provided.triple, required.triple);
    ArchExactly(provided.arch, required.arch);
    hide SameArchitecture, SameSystem, ArchMet, CheckArch, CheckTriple, Complaints;
    ArchOutcomes(provided.arch, required.arch);
  }

  /** What the whole check reports about features is exactly what is wrong with them. */
  lemma CheckReports(known: string -> bool, provided: Target, required: Target, base: string)
    requires Check(known, provided, required).MissingFeatures?
    ensures Check(known, provided, required).complaints != map[]
    ensures ReportsOn(Check(known, provided, required).complaints, provided.features, provided.disabled,
                      required.features, base)
  {
    CheckExactly(known, provided, required);
    hide ReportsOn, Complaints, Parse;
    ComplaintsExactly(provided.features, provided.disabled, required.features, base);
  }

  lemma TriplesTransitive(known: string -> bool, a: Triple, b: Triple, c: Triple)
    requires Recogniser(known) && Parsed(b)
    requires CheckTriple(known, a, b).Satisfied? && CheckTriple(known, b, c).Satisfied?
    ensures CheckTriple(known, a, c).Satisfied?
  {
  }

  lemma ArchsTransitive(a: string, b: string, c: string)
    requires CheckArch(a, b).Satisfied? && CheckArch(b, c).Satisfied?
    ensures CheckArch(a, c).Satisfied?
  {
    hide Decimal;
  }

  lemma FeaturesTransitive(a: Target, b: Target, c: Target)
    requires CheckFeatures(a.features, a.disabled, b.features).Satisfied?
    requires CheckFeatures(b.features, b.disabled, c.features).Satisfied?
    ensures CheckFeatures(a.features, a.disabled, c.features).Satisfied?
  {
    FeaturesSatisfied(a.features, a.disabled, b.features);
    FeaturesSatisfied(b.features, b.disabled, c.features);
    FeaturesSatisfied(a.features, a.disabled, c.features);
    hide Parse, CheckFeatures;
  }

  /** Satisfying is transitive, over all targets. */
  lemma CheckTransitive(known: string -> bool, a: Target, b: Target, c: Target)
    requires Recogniser(known) && Parsed(b.triple)
    requires Check(known, a, b).Satisfied? && Check(known, b, c).Satisfied?
    ensures Check(known, a, c).Satisfied?
  {
    hide CheckTriple, CheckArch, CheckFeatures, Recogniser, Parsed;
    TriplesTransitive(known, a.triple, b.triple, c.triple);
    ArchsTransitive(a.arch, b.arch, c.arch);
    FeaturesTransitive(a, b, c);
  }

  /** A target satisfies itself if and only if it disables no base that it provides. */
  lemma ReflexiveExactly(known: string -> bool, t: Target)
    ensures Check(known, t, t).Satisfied? <==> Parse(t.features).Keys !! Parse(t.disabled).Keys
  {
    hide Parse, CheckFeatures, DecodeName;
    FeaturesSatisfied(t.features, t.disabled, t.features);
  }

  /** Each feature that is not ignored is no newer than the first of its base. */
  ghost predicate FirstIsNewest(features: seq<string>) {
    forall f :: f in features && !Ignored(f) && DecodeName(f).base in Parse(features)
      ==> AtMost(DecodeName(f), Parse(features)[DecodeName(f).base])
  }

  /**
   * A superset does not always suffice: every selection of the provided features is satisfied if and
   * only if no provided base is disabled and each base lists its newest version first.
   */
  lemma SupersetsSufficeExactly(provided: seq<string>, disabled: seq<string>)
    ensures (forall required: seq<string> :: (forall f :: f in required ==> f in provided) ==>
        CheckFeatures(provided, disabled, required).Satisfied?)
      <==> FirstIsNewest(provided) && Parse(provided).Keys !! Parse(disabled).Keys
  {
    if FirstIsNewest(provided) && Parse(provided).Keys !! Parse(disabled).Keys {
      forall required: seq<string> | forall f :: f in required ==> f in provided
        ensures CheckFeatures(provided, disabled, required).Satisfied?
      {
        SelectionSatisfied(provided, disabled, required);
      }
    }
    if forall required: seq<string> :: (forall f :: f in required ==> f in provided) ==>
         CheckFeatures(provided, disabled, required).Satisfied?
    {
      hide CheckFeatures, Parse, DecodeName;
      FeaturesSatisfied(provided, disabled, provided);
      forall f | f in provided && !Ignored(f) && DecodeName(f).base in Parse(provided)
        ensures AtMost(DecodeName(f), Parse(provided)[DecodeName(f).base])
      {
        FeaturesSatisfied(provided, disabled, [f]);
        ParseOne(f);
        assert CheckFeatures(provided, disabled, [f]).Satisfied?;
      }
    }
  }

  lemma ParseOne(f: string)
    requires !Ignored(f)
    ensures Parse([f]) == map[DecodeName(f).base := DecodeName(f)]
  {
    hide DecodeName;
    var none: seq<string> := [];
    assert [f][..0] == none && Parse(none) == map[];
  }

  lemma SelectionSatisfied(provided: seq<string>, disabled: seq<string>, required: seq<string>)
    requires FirstIsNewest(provided) && Parse(provided).Keys !! Parse(disabled).Keys
    requires forall f :: f in required ==> f in provided
    ensures CheckFeatures(provided, disabled, required).Satisfied?
  {
    FeaturesSatisfied(provided, disabled, required);
    hide CheckFeatures, Parse, DecodeName;
    forall base | base in Parse(required)
      ensures base !in Parse(disabled) && base in Parse(provided)
      ensures AtMost(Parse(required)[base], Parse(provided)[base])
    {
      var f := ParsedFrom(required, base);
      ParseIsFirst(provided, base);
      var i :| 0 <= i < |provided| && provided[i] == f;
      assert Names(provided[i], base);
    }
  }

  /** Listing an older version first makes the newer one count for nothing. */
  lemma OlderFirstHidesNewer()
    ensures CheckFeatures(["sm_8", "sm_9"], [], ["sm_9"]) == MissingFeatures(map["sm" := TooOld("sm_8")])
  {
    var v, w := DecodeName("sm_8"), DecodeName("sm_9");
    assert "sm_8"[3..] == "8" && "sm_9"[3..] == "9";
    assert Decimal("8") == 8 && Decimal("9") == 9;
    ParseOne("sm_8");
    ParseOne("sm_9");
    assert ["sm_8", "sm_9"][..1] == ["sm_8"];
    assert Parse(["sm_8", "sm_9"]) == map["sm" := v];
  }

  // ---------- The list of ignored features, and each complaint

  /** A single requirement is met by a target without features exactly when it is one of the three ignored names. */
  lemma IgnoredExactly(f: string)
    ensures CheckFeatures([], [], [f]).Satisfied? <==> f in {"64Bit", "shstk", "cmov"}
  {
    FeaturesSatisfied([], [], [f]);
    var none: seq<string> := [];
    assert Parse(none) == map[];
    if Ignored(f) {
      assert [f][..0] == none;
      assert Parse([f]) == map[];
    } else {
      ParseOne(f);
    }
  }

  /** Requirements made only of ignored names are met by every target. */
  lemma {:induction false} IgnoredAlwaysMet(provided: seq<string>, disabled: seq<string>, required: seq<string>)
    requires forall f :: f in required ==> f in {"64Bit", "shstk", "cmov"}
    ensures CheckFeatures(provided, disabled, required).Satisfied?
  {
    assert Parse(required) == map[] by { ParseIgnored(required); }
    FeaturesSatisfied(provided, disabled, required);
  }

  lemma {:induction false} ParseIgnored(features: seq<string>)
    requires forall f :: f in features ==> Ignored(f)
    ensures Parse(features) == map[]
  {
    hide DecodeName, Ignored;
    if features == [] {
    } else {
      ParseIgnored(features[..|features| - 1]);
    }
  }

  /** A name is versioned exactly when it is the family prefix and a number that fits, which is then its version. */
  lemma VersionedExactly(name: string)
    ensures DecodeName(name) != VersionedName(name, name, 0) <==>
            exists digits :: name == "sm_" + digits && IsNumber(digits) && Decimal(digits) < VERSION_LIMIT
    ensures forall digits :: name == "sm_" + digits && IsNumber(digits) && Decimal(digits) < VERSION_LIMIT ==>
              DecodeName(name) == VersionedName(name, "sm", Decimal(digits))
  {
    hide Decimal;
    if "sm_" <= name {
      var digits := name[3..];
      assert name == "sm_" + digits;
      assert IsNumber(digits) <==> |name| > 3 && forall i :: 3 <= i < |name| ==> IsDigit(name[i]) by {
        assert forall i :: 3 <= i < |name| ==> name[i] == digits[i - 3];
        assert forall i :: 0 <= i < |digits| ==> digits[i] == name[i + 3];
      }
      forall other | name == "sm_" + other ensures other == digits { assert name[3..] == other; }
    } else {
      forall digits ensures name != "sm_" + digits { PrefixOfSum(digits); }
    }
  }

  lemma PrefixOfSum(digits: string)
    ensures "sm_" <= "sm_" + digits
  {
  }

  ghost predicate IsNumber(s: string) {
    s != "" && forall i :: 0 <= i < |s| ==> s[i] in {'0', '1', '2', '3', '4', '5', '6', '7', '8', '9'}
  }
}
