/** The join map: one record for many entries, exactly one record for each entry. */
module JoinMap {
  import opened ByteStrings
  import opened Counting
  import opened JoinAttr
  import opened JoinScopes

  // ---------- Natural tuples

  datatype RecordKey = RecordKey(
    func: Option<string>, variable: Option<string>, file: Option<string>, line: Option<string>, typ: Option<string>)

  function Unquote(v: Option<string>): Option<string> {
    if v.Some? && |v.value| >= 2 && v.value[0] == '"' && v.value[|v.value| - 1] == '"'
    then Some(v.value[1..|v.value| - 1]) else v
  }

  /** White space as the pattern language understands it. */
  predicate IsSpace(c: char) {
    var n := c as int;
    || 9 <= n <= 13 || 28 <= n <= 32 || n == 133 || n == 160 || n == 5760 || 8192 <= n <= 8202
    || n == 8232 || n == 8233 || n == 8239 || n == 8287 || n == 12288
  }

  function TrimEnd(s: string): string {
    if s != "" && IsSpace(s[|s| - 1]) then TrimEnd(s[..|s| - 1]) else s
  }

  /** Position of the first quote at or after i. */
  function FirstQuote(s: string, i: nat): (q: nat)
    requires i <= |s|
    ensures i <= q <= |s|
    decreases |s| - i
  {
    if i == |s| || s[i] == '"' then i else FirstQuote(s, i + 1)
  }

  /** A type by its quoted name if it has one, else as written; an empty value is no type. */
  function TypeName(raw: Option<string>): Option<string> {
    if raw.None? || raw.value == "" then None else
    var s := TrimEnd(raw.value);
    var q := FirstQuote(s, 0);
    if |s| > 0 && s[|s| - 1] == '"' && q < |s| - 1 then Some(s[q + 1..|s| - 1]) else raw
  }

  /** The first value unless it is missing or empty. */
  function OrElse(a: Option<string>, b: Option<string>): Option<string> {
    if a.Some? && a.value != "" then a else b
  }

  function AttrOf(dies: Dies, d: Option<Die>, name: string): Option<string>
    requires d.Some? ==> d.value.off in dies
  {
    if d.None? then None else Attr(dies, d.value.off, name)
  }

  function KeyOf(dies: Dies, die: Die, scope: Option<Die>): RecordKey
    requires die.off in dies && (scope.Some? ==> scope.value.off in dies)
  {
    RecordKey(
      Unquote(OrElse(AttrOf(dies, scope, "DW_AT_linkage_name"), AttrOf(dies, scope, "DW_AT_name"))),
      Unquote(Attr(dies, die.off, "DW_AT_name")),
      Unquote(Attr(dies, die.off, "DW_AT_decl_file")),
      Unquote(Attr(dies, die.off, "DW_AT_decl_line")),
      TypeName(Attr(dies, die.off, "DW_AT_type")))
  }

  // ---------- Record identifiers

  const SEPARATOR: char := '\U{001F}'

  /** A field as text: a missing one reads "None". */
  function Text(f: Option<string>): string {
    if f.None? then "None" else f.value
  }

  function Blob(k: RecordKey): string {
    Text(k.func) + [SEPARATOR] + (Text(k.variable) + [SEPARATOR] + (Text(k.file) + [SEPARATOR] +
      (Text(k.line) + [SEPARATOR] + Text(k.typ))))
  }

  /** The truncated digest of the blob; the digest is a parameter. */
  function RecordId(digest: string -> string, k: RecordKey): string {
    digest(Blob(k))
  }

  lemma Regroup(x: string, y: string, z: string)
    ensures (x + [SEPARATOR] + y) + [SEPARATOR] + z == x + [SEPARATOR] + (y + [SEPARATOR] + z)
  {
  }

  /** A field is written as its text, and a missing one as "None". */
  ghost predicate WrittenAs(f: Option<string>, text: string) {
    f == Some(text) || (f == None && text == "None")
  }

  /** An identifier is the digest of the five texts in this order, with the unit separator between each two. */
  lemma RecordIdIs(digest: string -> string, k: RecordKey, a: string, b: string, c: string, d: string, e: string)
    requires WrittenAs(k.func, a) && WrittenAs(k.variable, b) && WrittenAs(k.file, c)
    requires WrittenAs(k.line, d) && WrittenAs(k.typ, e)
    ensures RecordId(digest, k) ==
            digest(a + "\U{001F}" + b + "\U{001F}" + c + "\U{001F}" + d + "\U{001F}" + e)
  {
    var u := "\U{001F}";
    assert Blob(k) == a + u + (b + u + (c + u + (d + u + e)));
    hide *;
    Regroup(a + u + b + u + c, d, e);
    Regroup(a + u + b, c, d + u + e);
    Regroup(a, b, c + u + (d + u + e));
  }

  ghost predicate CollisionFree(digest: string -> string) {
    forall a, b :: digest(a) == digest(b) ==> a == b
  }

  /** The pieces of a text between separators, empty ones included. */
  function Pieces(s: string): (r: seq<string>)
    ensures r != []
  {
    if s == "" then [""]
    else if s[0] == SEPARATOR then [""] + Pieces(s[1..])
    else Grown(s[0], Pieces(s[1..]))
  }

  /** The first piece, one character longer. */
  function Grown(c: char, pieces: seq<string>): (r: seq<string>)
    requires pieces != []
    ensures |r| == |pieces|
  {
    [[c] + pieces[0]] + pieces[1..]
  }

  function Joined(pieces: seq<string>): string {
    if pieces == [] then "" else if |pieces| == 1 then pieces[0] else pieces[0] + [SEPARATOR] + Joined(pieces[1..])
  }

  lemma {:induction false} PiecesAppend(s: string, t: string)
    ensures Pieces(s + [SEPARATOR] + t) == Pieces(s) + Pieces(t)
  {
    hide Grown;
    var whole := s + [SEPARATOR] + t;
    if s == "" {
      assert whole[1..] == t;
    } else {
      PiecesAppend(s[1..], t);
      assert whole[0] == s[0] && whole[1..] == s[1..] + [SEPARATOR] + t;
      if s[0] == SEPARATOR {
        assert [""] + (Pieces(s[1..]) + Pieces(t)) == ([""] + Pieces(s[1..])) + Pieces(t);
      } else {
        GrownAppend(s[0], Pieces(s[1..]), Pieces(t));
      }
    }
  }

  lemma GrownAppend(c: char, a: seq<string>, b: seq<string>)
    requires a != []
    ensures Grown(c, a + b) == Grown(c, a) + b
  {
    assert (a + b)[0] == a[0] && (a + b)[1..] == a[1..] + b;
  }

  /** Cutting a text loses nothing. */
  lemma {:induction false} JoinedPieces(s: string)
    ensures Joined(Pieces(s)) == s
  {
    if s == "" {
    } else {
      JoinedPieces(s[1..]);
      var rest := Pieces(s[1..]);
      assert s == [s[0]] + s[1..];
      if s[0] == SEPARATOR {
        assert ([""] + rest)[1..] == rest;
      } else {
        assert Grown(s[0], rest)[1..] == rest[1..];
      }
    }
  }

  /** A text is a single piece exactly when it has no separator. */
  lemma {:induction false} SinglePiece(s: string)
    ensures |Pieces(s)| == 1 <==> SEPARATOR !in s
    ensures |Pieces(s)| == 1 ==> Pieces(s) == [s]
  {
    if s == "" {
    } else {
      SinglePiece(s[1..]);
      assert s == [s[0]] + s[1..];
    }
  }

  /** The pieces of all five fields, in order. */
  function AllPieces(k: RecordKey): seq<string> {
    Pieces(Text(k.func)) + (Pieces(Text(k.variable)) + (Pieces(Text(k.file)) +
      (Pieces(Text(k.line)) + Pieces(Text(k.typ)))))
  }

  lemma BlobPieces(k: RecordKey)
    ensures Pieces(Blob(k)) == AllPieces(k)
  {
    hide Text, Pieces;
    var line := Text(k.line) + [SEPARATOR] + Text(k.typ);
    var file := Text(k.file) + [SEPARATOR] + line;
    var variable := Text(k.variable) + [SEPARATOR] + file;
    PiecesAppend(Text(k.line), Text(k.typ));
    PiecesAppend(Text(k.file), line);
    PiecesAppend(Text(k.variable), file);
    PiecesAppend(Text(k.func), variable);
  }

  /** With a collision-free digest, any two tuples share an identifier exactly when their pieces agree in order. */
  lemma IdsAgreeExactly(digest: string -> string, k: RecordKey, l: RecordKey)
    requires CollisionFree(digest)
    ensures RecordId(digest, k) == RecordId(digest, l) <==> AllPieces(k) == AllPieces(l)
  {
    hide Pieces, AllPieces, Blob;
    BlobPieces(k);
    BlobPieces(l);
    JoinedPieces(Blob(k));
    JoinedPieces(Blob(l));
  }

  function Fields(k: RecordKey): seq<Option<string>> {
    [k.func, k.variable, k.file, k.line, k.typ]
  }

  /** No field contains the separator, is missing, or reads "None". */
  predicate Unmistakable(k: RecordKey) {
    forall i :: 0 <= i < 5 ==> SEPARATOR !in Text(Fields(k)[i]) && Text(Fields(k)[i]) != "None"
  }

  predicate SameText(k: RecordKey, l: RecordKey) {
    forall i :: 0 <= i < 5 ==> Text(Fields(k)[i]) == Text(Fields(l)[i])
  }

  /** Texts tell a tuple apart from all others if and only if no field is missing or reads "None". */
  lemma SameTextIsSameKey(k: RecordKey)
    ensures (forall l :: SameText(k, l) ==> l == k) <==> forall i :: 0 <= i < 5 ==> Text(Fields(k)[i]) != "None"
  {
    if forall i :: 0 <= i < 5 ==> Text(Fields(k)[i]) != "None" {
      forall l | SameText(k, l) ensures l == k {
        assert forall i :: 0 <= i < 5 ==> Text(Fields(k)[i]) == Text(Fields(l)[i]);
        SameFields(k, l);
      }
    } else {
      var i :| 0 <= i < 5 && Text(Fields(k)[i]) == "None";
      var l := Replaced(k, i, if Fields(k)[i].None? then Some("None") else None);
      assert SameText(k, l) && Fields(l)[i] != Fields(k)[i];
    }
  }

  lemma SameFields(k: RecordKey, l: RecordKey)
    requires SameText(k, l) && forall i :: 0 <= i < 5 ==> Text(Fields(k)[i]) != "None"
    ensures k == l
  {
    assert Text(Fields(k)[0]) == Text(Fields(l)[0]) && Text(Fields(k)[1]) == Text(Fields(l)[1]);
    assert Text(Fields(k)[2]) == Text(Fields(l)[2]) && Text(Fields(k)[3]) == Text(Fields(l)[3]);
    assert Text(Fields(k)[4]) == Text(Fields(l)[4]);
  }

  function Replaced(k: RecordKey, i: nat, f: Option<string>): (l: RecordKey)
    requires i < 5
    ensures Fields(l) == Fields(k)[i := f]
  {
    match i
    case 0 => k.(func := f)
    case 1 => k.(variable := f)
    case 2 => k.(file := f)
    case 3 => k.(line := f)
    case 4 => k.(typ := f)
  }

  /** Whatever the digest, a variable without a name and one named None share a record. */
  lemma {:induction false} MissingMeetsNone(digest: string -> string, k: RecordKey)
    ensures RecordId(digest, k.(variable := None)) == RecordId(digest, k.(variable := Some("None")))
    ensures k.(variable := None) != k.(variable := Some("None"))
  {
  }

  /** Whatever the digest, a separator can move between a function and a variable unnoticed. */
  lemma SeparatorMoves(digest: string -> string, a: string, b: string, c: string, k: RecordKey)
    ensures var x := k.(func := Some(a + "\U{001F}" + b), variable := Some(c));
      var y := k.(func := Some(a), variable := Some(b + "\U{001F}" + c));
      RecordId(digest, x) == RecordId(digest, y) && x != y
  {
    var x := k.(func := Some(a + [SEPARATOR] + b), variable := Some(c));
    var y := k.(func := Some(a), variable := Some(b + [SEPARATOR] + c));
    assert Blob(x) == Blob(y);
    assert |x.func.value| > |y.func.value|;
  }

  /** No separator before the last field, and no field that is the very text standing for a missing one. */
  predicate Plain(k: RecordKey) {
    && SEPARATOR !in Text(k.func) && SEPARATOR !in Text(k.variable)
    && SEPARATOR !in Text(k.file) && SEPARATOR !in Text(k.line)
    && forall i :: 0 <= i < 5 ==> Fields(k)[i] != Some("None")
  }

  lemma SplitAtSeparator(a: string, x: string, b: string, y: string)
    requires SEPARATOR !in a && SEPARATOR !in b && a + [SEPARATOR] + x == b + [SEPARATOR] + y
    ensures a == b && x == y
  {
    var s, t := a + [SEPARATOR] + x, b + [SEPARATOR] + y;
    assert s[|a|] == SEPARATOR && t[|b|] == SEPARATOR;
    assert |a| == |b|;
    assert a == s[..|a|] && b == t[..|b|] && x == s[|a| + 1..] && y == t[|b| + 1..];
  }

  lemma PlainTexts(k: RecordKey, l: RecordKey)
    requires Plain(k) && Plain(l) && Blob(k) == Blob(l)
    ensures Text(k.func) == Text(l.func) && Text(k.variable) == Text(l.variable) && Text(k.file) == Text(l.file)
    ensures Text(k.line) == Text(l.line) && Text(k.typ) == Text(l.typ)
  {
    hide Text;
    var k4, l4 := Text(k.line) + [SEPARATOR] + Text(k.typ), Text(l.line) + [SEPARATOR] + Text(l.typ);
    var k3, l3 := Text(k.file) + [SEPARATOR] + k4, Text(l.file) + [SEPARATOR] + l4;
    var k2, l2 := Text(k.variable) + [SEPARATOR] + k3, Text(l.variable) + [SEPARATOR] + l3;
    SplitAtSeparator(Text(k.func), k2, Text(l.func), l2);
    SplitAtSeparator(Text(k.variable), k3, Text(l.variable), l3);
    SplitAtSeparator(Text(k.file), k4, Text(l.file), l4);
    SplitAtSeparator(Text(k.line), Text(k.typ), Text(l.line), Text(l.typ));
  }

  /** Plain tuples, missing fields included, share an identifier exactly when they are equal. */
  lemma PlainAreApart(digest: string -> string, k: RecordKey, l: RecordKey)
    requires CollisionFree(digest) && Plain(k) && Plain(l)
    ensures RecordId(digest, k) == RecordId(digest, l) <==> k == l
  {
    if RecordId(digest, k) == RecordId(digest, l) {
      PlainTexts(k, l);
      assert Fields(k)[0] == k.func && Fields(k)[1] == k.variable && Fields(k)[2] == k.file;
      assert Fields(k)[3] == k.line && Fields(k)[4] == k.typ;
      assert Fields(l)[0] == l.func && Fields(l)[1] == l.variable && Fields(l)[2] == l.file;
      assert Fields(l)[3] == l.line && Fields(l)[4] == l.typ;
    }
  }

  // ---------- When an identifier determines its tuple

  /** Five texts that are single pieces are the five pieces; any other five texts have more pieces. */
  lemma PieceCount(k: RecordKey)
    ensures |AllPieces(k)| >= 5
    ensures |AllPieces(k)| == 5 <==> forall i :: 0 <= i < 5 ==> SEPARATOR !in Text(Fields(k)[i])
    ensures |AllPieces(k)| == 5 ==>
              AllPieces(k) == [Text(k.func), Text(k.variable), Text(k.file), Text(k.line), Text(k.typ)]
  {
    hide Text, Pieces;
    SinglePiece(Text(k.func));
    SinglePiece(Text(k.variable));
    SinglePiece(Text(k.file));
    SinglePiece(Text(k.line));
    SinglePiece(Text(k.typ));
    assert Fields(k)[0] == k.func && Fields(k)[1] == k.variable && Fields(k)[2] == k.file;
    assert Fields(k)[3] == k.line && Fields(k)[4] == k.typ;
  }

  lemma UnmistakableIsAlone(k: RecordKey, l: RecordKey)
    requires Unmistakable(k) && AllPieces(k) == AllPieces(l)
    ensures k == l
  {
    PieceCount(k);
    PieceCount(l);
    hide AllPieces, Text;
    var p := AllPieces(k);
    assert p[0] == Text(k.func) == Text(l.func) && p[1] == Text(k.variable) == Text(l.variable);
    assert p[2] == Text(k.file) == Text(l.file) && p[3] == Text(k.line) == Text(l.line);
    assert p[4] == Text(k.typ) == Text(l.typ);
    assert SameText(k, l);
    SameFields(k, l);
  }

  /** A text with a separator, cut at some separator. */
  lemma CutAtSeparator(s: string) returns (x: string, y: string)
    requires SEPARATOR in s
    ensures s == x + [SEPARATOR] + y
  {
    var i :| 0 <= i < |s| && s[i] == SEPARATOR;
    x, y := s[..i], s[i + 1..];
  }

  /** A separator in a field can be taken for a boundary between fields. */
  lemma SeparatorIsMistaken(k: RecordKey, i: nat) returns (l: RecordKey)
    requires i < 5 && SEPARATOR in Text(Fields(k)[i])
    ensures l != k && Blob(l) == Blob(k)
  {
    var x, y := CutAtSeparator(Text(Fields(k)[i]));
    if i < 4 {
      l := Replaced(Replaced(k, i, Some(x)), i + 1, Some(y + [SEPARATOR] + Text(Fields(k)[i + 1])));
      assert |Text(Fields(l)[i])| < |Text(Fields(k)[i])|;
    } else {
      l := k.(line := Some(Text(k.line) + [SEPARATOR] + x), typ := Some(y));
      assert |Text(l.typ)| < |Text(k.typ)|;
    }
    SameBlob(k, l, i, x, y);
  }

  lemma SameBlob(k: RecordKey, l: RecordKey, i: nat, x: string, y: string)
    requires i < 5 && Text(Fields(k)[i]) == x + [SEPARATOR] + y
    requires i < 4 ==> l == Replaced(Replaced(k, i, Some(x)), i + 1, Some(y + [SEPARATOR] + Text(Fields(k)[i + 1])))
    requires i == 4 ==> l == k.(line := Some(Text(k.line) + [SEPARATOR] + x), typ := Some(y))
    ensures Blob(l) == Blob(k)
  {
    var line := Text(k.line) + [SEPARATOR] + Text(k.typ);
    var file := Text(k.file) + [SEPARATOR] + line;
    match i
    case 0 =>
      Regroup(x, y, Text(k.variable) + [SEPARATOR] + file);
      Regroup(y, Text(k.variable), file);
    case 1 =>
      Regroup(x, y, file);
      Regroup(y, Text(k.file), line);
    case 2 =>
      Regroup(x, y, line);
      Regroup(y, Text(k.line), Text(k.typ));
    case 3 => Regroup(x, y, Text(k.typ));
    case 4 => Regroup(Text(k.line), x, y);
  }

  lemma NoneIsMistaken(k: RecordKey, i: nat) returns (l: RecordKey)
    requires i < 5 && Text(Fields(k)[i]) == "None"
    ensures l != k && Blob(l) == Blob(k)
  {
    l := Replaced(k, i, if Fields(k)[i].None? then Some("None") else None);
    assert Fields(l)[i] != Fields(k)[i];
  }

  /** Without collisions an identifier determines its tuple if and only if no field contains the separator, is missing
      or reads "None". */
  lemma IdDeterminesKeyExactly(digest: string -> string, k: RecordKey)
    requires CollisionFree(digest)
    ensures (forall l :: RecordId(digest, l) == RecordId(digest, k) ==> l == k) <==> Unmistakable(k)
  {
    if Unmistakable(k) {
      forall l | RecordId(digest, l) == RecordId(digest, k) ensures l == k {
        IdsAgreeExactly(digest, k, l);
        UnmistakableIsAlone(k, l);
      }
    } else {
      var l: RecordKey;
      var i :| 0 <= i < 5 && (SEPARATOR in Text(Fields(k)[i]) || Text(Fields(k)[i]) == "None");
      if SEPARATOR in Text(Fields(k)[i]) {
        l := SeparatorIsMistaken(k, i);
      } else {
        l := NoneIsMistaken(k, i);
      }
      assert RecordId(digest, l) == RecordId(digest, k);
    }
  }

  // ---------- Building the map

  datatype Record = Record(key: RecordKey, dies: seq<Off>)

  /** Records by identifier, and the record of each entry. */
  datatype Doc = Doc(records: map<string, Record>, offsets: map<Off, string>)

  /** Loading gives each entry once, under its own offset. */
  ghost predicate Loaded(dies: Dies, order: seq<Die>) {
    DistinctOffsets(order) && forall i :: 0 <= i < |order| ==> order[i].off in dies && dies[order[i].off] == order[i]
  }

  /** The scope recorded for an entry. */
  function ScopeFor(order: seq<Die>, i: nat): (d: Option<Die>)
    requires i < |order|
    ensures d.Some? ==> d.value in order
  {
    var p := NearestScope(order, i);
    if IsVar(order[i]) && p.Some? then Some(order[p.value]) else None
  }

  function KeyAt(dies: Dies, order: seq<Die>, i: nat): RecordKey
    requires Loaded(dies, order) && i < |order|
  {
    KeyOf(dies, order[i], ScopeFor(order, i))
  }

  function IdAt(digest: string -> string, dies: Dies, order: seq<Die>, i: nat): string
    requires Loaded(dies, order) && i < |order|
  {
    RecordId(digest, KeyAt(dies, order, i))
  }

  function AddDie(doc: Doc, key: RecordKey, rid: string, off: Off): Doc {
    var rec := if rid in doc.records then doc.records[rid] else Record(key, []);
    Doc(doc.records[rid := rec.(dies := rec.dies + [off])], doc.offsets[off := rid])
  }

  function BuildUpTo(digest: string -> string, dies: Dies, order: seq<Die>, n: nat): Doc
    requires Loaded(dies, order) && n <= |order|
  {
    if n == 0 then Doc(map[], map[]) else
    var before, i := BuildUpTo(digest, dies, order, n - 1), n - 1;
    if !IsVar(order[i]) then before
    else AddDie(before, KeyAt(dies, order, i), IdAt(digest, dies, order, i), order[i].off)
  }

  method Build(digest: string -> string, dies: Dies, order: seq<Die>) returns (doc: Doc)
    requires Loaded(dies, order)
    ensures doc == BuildUpTo(digest, dies, order, |order|)
  {
    hide NearestScope, KeyOf, RecordId;
    var scopes := EnclosingScopes(order);
    var records: map<string, Record>, offsets: map<Off, string> := map[], map[];
    for i := 0 to |order|
      invariant Doc(records, offsets) == BuildUpTo(digest, dies, order, i)
    {
      if !IsVar(order[i]) {
        continue;
      }
      var die := order[i];
      ScopeOf(order, |order|, i);
      var scope := if die.off in scopes then Some(scopes[die.off]) else None;
      assert scope == ScopeFor(order, i);
      var key := KeyOf(dies, die, scope);
      var rid := RecordId(digest, key);
      if rid !in records {
        records := records[rid := Record(key, [])];
      }
      records := records[rid := records[rid].(dies := records[rid].dies + [die.off])];
      offsets := offsets[die.off := rid];
    }
    doc := Doc(records, offsets);
  }

  /** The two halves of the map are inverse to each other. */
  ghost predicate Mutual(doc: Doc) {
    && (forall rid, o :: rid in doc.records && o in doc.records[rid].dies ==> o in doc.offsets && doc.offsets[o] == rid)
    && (forall o :: o in doc.offsets ==> doc.offsets[o] in doc.records && o in doc.records[doc.offsets[o]].dies)
  }

  ghost predicate Distinct(dies: seq<Off>) {
    forall a, b :: 0 <= a < b < |dies| ==> dies[a] != dies[b]
  }

  /** No entry is listed twice, and a record's tuple has the record's id. */
  ghost predicate Proper(digest: string -> string, doc: Doc) {
    forall rid :: rid in doc.records ==>
      Distinct(doc.records[rid].dies) && RecordId(digest, doc.records[rid].key) == rid
  }

  ghost predicate Inverse(digest: string -> string, doc: Doc) {
    Mutual(doc) && Proper(digest, doc)
  }

  lemma {:induction false} AddDieMutual(doc: Doc, key: RecordKey, rid: string, off: Off)
    requires Mutual(doc) && off !in doc.offsets
    ensures Mutual(AddDie(doc, key, rid, off))
  {
    var doc' := AddDie(doc, key, rid, off);
    var before := if rid in doc.records then doc.records[rid].dies else [];
    assert doc'.records[rid].dies == before + [off];
    assert forall o :: o in doc'.records[rid].dies <==> o in before || o == off;
  }

  lemma {:induction false} AddDieInverse(digest: string -> string, doc: Doc, key: RecordKey, off: Off)
    requires Inverse(digest, doc) && off !in doc.offsets
    ensures Inverse(digest, AddDie(doc, key, RecordId(digest, key), off))
  {
    hide RecordId;
    AddDieMutual(doc, key, RecordId(digest, key), off);
  }

  /** Exactly the variables are mapped, each to the record of its own tuple. */
  lemma {:induction false} BuildOffsets(digest: string -> string, dies: Dies, order: seq<Die>, n: nat, i: nat)
    requires Loaded(dies, order) && n <= |order| && i < |order|
    ensures var doc := BuildUpTo(digest, dies, order, n);
            && (order[i].off in doc.offsets <==> i < n && IsVar(order[i]))
            && (order[i].off in doc.offsets ==> doc.offsets[order[i].off] == IdAt(digest, dies, order, i))
    decreases n
  {
    hide IdAt, KeyAt, IsVar;
    if n == 0 {
    } else {
      BuildOffsets(digest, dies, order, n - 1, i);
    }
  }

  /** Offsets and records are mutually inverse. */
  lemma {:induction false} BuildInverse(digest: string -> string, dies: Dies, order: seq<Die>, n: nat)
    requires Loaded(dies, order) && n <= |order|
    ensures Inverse(digest, BuildUpTo(digest, dies, order, n))
    decreases n
  {
    hide KeyAt, IsVar, Inverse, AddDie, RecordId;
    if n == 0 {
      EmptyInverse(digest);
    } else {
      BuildInverse(digest, dies, order, n - 1);
      BuildOffsets(digest, dies, order, n - 1, n - 1);
      AddDieInverse(digest, BuildUpTo(digest, dies, order, n - 1), KeyAt(dies, order, n - 1), order[n - 1].off);
    }
  }

  lemma EmptyInverse(digest: string -> string)
    ensures Inverse(digest, Doc(map[], map[]))
  {
  }

  /** The offsets of the first n entries that are variables with the given identifier, in order. */
  function Members(digest: string -> string, dies: Dies, order: seq<Die>, n: nat, rid: string): seq<Off>
    requires Loaded(dies, order) && n <= |order|
  {
    if n == 0 then [] else
    var before := Members(digest, dies, order, n - 1, rid);
    if IsVar(order[n - 1]) && IdAt(digest, dies, order, n - 1) == rid then before + [order[n - 1].off] else before
  }

  /** The first of the first n entries that is a variable with the given identifier. */
  ghost predicate FirstMember(digest: string -> string, dies: Dies, order: seq<Die>, n: nat, rid: string, i: nat)
    requires Loaded(dies, order) && n <= |order|
  {
    && i < n && IsVar(order[i]) && IdAt(digest, dies, order, i) == rid
    && forall j :: 0 <= j < i && IsVar(order[j]) ==> IdAt(digest, dies, order, j) != rid
  }

  /** A record lists exactly the variables with its identifier, in the order of the entries, and its tuple is that of
      the first of them. */
  lemma {:induction false} RecordHolds(digest: string -> string, dies: Dies, order: seq<Die>, n: nat, rid: string)
    requires Loaded(dies, order) && n <= |order|
    ensures var doc := BuildUpTo(digest, dies, order, n);
      && (rid in doc.records <==> Members(digest, dies, order, n, rid) != [])
      && (rid in doc.records ==> doc.records[rid].dies == Members(digest, dies, order, n, rid))
      && forall i: nat :: FirstMember(digest, dies, order, n, rid, i) ==>
           rid in doc.records && doc.records[rid].key == KeyAt(dies, order, i)
    decreases n
  {
    hide IdAt, KeyAt, IsVar;
    if n == 0 {
    } else {
      RecordHolds(digest, dies, order, n - 1, rid);
      forall i: nat | FirstMember(digest, dies, order, n, rid, i) && i < n - 1
        ensures FirstMember(digest, dies, order, n - 1, rid, i) {}
      NoMembers(digest, dies, order, n - 1, rid);
    }
  }

  lemma {:induction false} NoMembers(digest: string -> string, dies: Dies, order: seq<Die>, n: nat, rid: string)
    requires Loaded(dies, order) && n <= |order|
    ensures Members(digest, dies, order, n, rid) == [] <==>
            forall j :: 0 <= j < n && IsVar(order[j]) ==> IdAt(digest, dies, order, j) != rid
    decreases n
  {
    hide IdAt, IsVar;
    if n == 0 {
    } else {
      NoMembers(digest, dies, order, n - 1, rid);
    }
  }

  function Offsets(order: seq<Die>): (r: seq<Off>)
    ensures |r| == |order|
  {
    seq(|order|, i requires 0 <= i < |order| => order[i].off)
  }

  function HaveId(digest: string -> string, dies: Dies, order: seq<Die>, n: nat, rid: string): (r: seq<bool>)
    requires Loaded(dies, order) && n <= |order|
    ensures |r| == n
    ensures forall i :: 0 <= i < n ==> (r[i] <==> IsVar(order[i]) && IdAt(digest, dies, order, i) == rid)
  {
    seq(n, i requires 0 <= i < n => IsVar(order[i]) && IdAt(digest, dies, order, i) == rid)
  }

  /** A record's entries by position: exactly the variables with its identifier, each once, in the order of the dies. */
  lemma {:induction false} MembersInOrder(digest: string -> string, dies: Dies, order: seq<Die>, n: nat, rid: string)
    returns (at: seq<nat>)
    requires Loaded(dies, order) && n <= |order|
    ensures Filters(Offsets(order)[..n], HaveId(digest, dies, order, n, rid), at,
                    Members(digest, dies, order, n, rid))
    decreases n
  {
    hide IdAt, IsVar, Filters, Loaded;
    if n == 0 {
      at := [];
      assert Offsets(order)[..0] == [];
      FiltersNothing<Off>();
    } else {
      var before := MembersInOrder(digest, dies, order, n - 1, rid);
      var off, want := order[n - 1].off, IsVar(order[n - 1]) && IdAt(digest, dies, order, n - 1) == rid;
      assert Offsets(order)[..n] == Offsets(order)[..n - 1] + [off];
      assert HaveId(digest, dies, order, n, rid) == HaveId(digest, dies, order, n - 1, rid) + [want];
      at := FiltersOneMore(Offsets(order)[..n - 1], HaveId(digest, dies, order, n - 1, rid), before,
                           Members(digest, dies, order, n - 1, rid), off, want);
    }
  }

  /** Two variables share a record exactly when the pieces of their tuples agree; that is equality of the tuples when
      one of them cannot be mistaken, or when neither has an inner separator or the text "None". */
  lemma {:induction false} ShareARecord(digest: string -> string, dies: Dies, order: seq<Die>, i: nat, j: nat)
    requires Loaded(dies, order) && CollisionFree(digest)
    requires i < |order| && j < |order| && IsVar(order[i]) && IsVar(order[j])
    ensures var doc := BuildUpTo(digest, dies, order, |order|);
            var k, l := KeyAt(dies, order, i), KeyAt(dies, order, j);
            && order[i].off in doc.offsets && order[j].off in doc.offsets
            && var shared := doc.offsets[order[i].off] == doc.offsets[order[j].off];
            && (shared <==> AllPieces(k) == AllPieces(l))
            && (Unmistakable(k) ==> (shared <==> k == l))
            && (Plain(k) && Plain(l) ==> (shared <==> k == l))
  {
    hide KeyAt, RecordId, IsVar, Plain, Unmistakable, AllPieces, BuildUpTo, CollisionFree;
    var k, l := KeyAt(dies, order, i), KeyAt(dies, order, j);
    BuildOffsets(digest, dies, order, |order|, i);
    BuildOffsets(digest, dies, order, |order|, j);
    IdsAgreeExactly(digest, k, l);
    if AllPieces(k) == AllPieces(l) {
      if Unmistakable(k) { UnmistakableIsAlone(k, l); }
      if Plain(k) && Plain(l) { PlainAreApart(digest, k, l); }
    }
  }

  // ---------- Validation

  function AllVars(order: seq<Die>): seq<Off> {
    if order == [] then []
    else if IsVar(order[|order| - 1]) then AllVars(order[..|order| - 1]) + [order[|order| - 1].off]
    else AllVars(order[..|order| - 1])
  }

  /** An entry of the map whose record exists but does not list it. */
  predicate Mislisted(doc: Doc, o: Off)
    requires Resolvable(doc, o)
  {
    o in doc.offsets && doc.offsets[o] != "" && o !in doc.records[doc.offsets[o]].dies
  }

  /** The record an entry points to exists; the check looks it up without asking. */
  predicate Resolvable(doc: Doc, o: Off) {
    o in doc.offsets && doc.offsets[o] != "" ==> doc.offsets[o] in doc.records
  }

  /** The variables that the map misses, in order and as often as they are listed. */
  function Unmapped(doc: Doc, vars: seq<Off>): seq<Off> {
    if vars == [] then []
    else Unmapped(doc, vars[..|vars| - 1]) + if vars[|vars| - 1] in doc.offsets then [] else [vars[|vars| - 1]]
  }

  /** Entry i is the first one that its record does not list. */
  ghost predicate FirstMislisted(doc: Doc, vars: seq<Off>, i: nat)
    requires i < |vars| && forall o :: o in vars ==> Resolvable(doc, o)
  {
    Mislisted(doc, vars[i]) && forall j :: 0 <= j < i ==> !Mislisted(doc, vars[j])
  }

  /** Reports all variables that the map misses, and the first that its record does not list if there is one. */
  method Validate(order: seq<Die>, doc: Doc) returns (missing: seq<Off>, mislisted: Option<Off>)
    requires forall o :: o in AllVars(order) ==> Resolvable(doc, o)
    ensures missing == Unmapped(doc, AllVars(order))
    ensures mislisted.Some? ==>
      exists i :: 0 <= i < |AllVars(order)| && FirstMislisted(doc, AllVars(order), i) &&
                  mislisted.value == AllVars(order)[i]
    ensures mislisted.None? ==> forall o :: o in AllVars(order) ==> !Mislisted(doc, o)
  {
    hide AllVars;
    var vars := AllVars(order);
    missing := [];
    for i := 0 to |vars|
      invariant missing == Unmapped(doc, vars[..i])
    {
      assert vars[..i + 1][..i] == vars[..i];
      if vars[i] !in doc.offsets {
        missing := missing + [vars[i]];
      }
    }
    assert vars[..|vars|] == vars;
    mislisted := None;
    for i := 0 to |vars|
      invariant forall j :: 0 <= j < i ==> !Mislisted(doc, vars[j])
    {
      if Mislisted(doc, vars[i]) {
        assert FirstMislisted(doc, vars, i);
        return missing, Some(vars[i]);
      }
    }
  }

  /** The report holds exactly the variables that are not mapped, and is empty exactly when all are. */
  lemma {:induction false} UnmappedAre(doc: Doc, vars: seq<Off>, o: Off)
    ensures o in Unmapped(doc, vars) <==> o in vars && o !in doc.offsets
    ensures |Unmapped(doc, vars)| <= |vars|
    ensures Unmapped(doc, vars) == [] <==> forall i :: 0 <= i < |vars| ==> vars[i] in doc.offsets
  {
    if vars == [] {
    } else {
      var init := vars[..|vars| - 1];
      UnmappedAre(doc, init, o);
      assert vars == init + [vars[|vars| - 1]];
    }
  }

  function AreUnmapped(doc: Doc, vars: seq<Off>): (r: seq<bool>)
    ensures |r| == |vars| && forall i :: 0 <= i < |vars| ==> (r[i] <==> vars[i] !in doc.offsets)
  {
    seq(|vars|, i requires 0 <= i < |vars| => vars[i] !in doc.offsets)
  }

  /** The report by position: it lists exactly the variables that are not mapped, in the order in which they come. */
  lemma {:induction false} UnmappedInOrder(doc: Doc, vars: seq<Off>) returns (at: seq<nat>)
    ensures Filters(vars, AreUnmapped(doc, vars), at, Unmapped(doc, vars))
  {
    hide Filters;
    if vars == [] {
      at := [];
      FiltersNothing<Off>();
    } else {
      var n := |vars| - 1;
      var init, last := vars[..n], vars[n];
      var before := UnmappedInOrder(doc, init);
      assert vars == init + [last];
      assert AreUnmapped(doc, vars) == AreUnmapped(doc, init) + [last !in doc.offsets];
      assert Unmapped(doc, init) + [] == Unmapped(doc, init);
      at := FiltersOneMore(init, AreUnmapped(doc, init), before, Unmapped(doc, init), last, last !in doc.offsets);
    }
  }

  lemma {:induction false} AllVarsAre(order: seq<Die>, o: Off)
    ensures o in AllVars(order) <==> exists i :: 0 <= i < |order| && IsVar(order[i]) && order[i].off == o
    decreases |order|
  {
    hide IsVar;
    if order == [] {
    } else {
      var init, last := order[..|order| - 1], order[|order| - 1];
      AllVarsAre(init, o);
      if o in AllVars(init) {
        var i :| 0 <= i < |init| && IsVar(init[i]) && init[i].off == o;
        assert IsVar(order[i]) && order[i].off == o;
      }
      if i :| 0 <= i < |order| && IsVar(order[i]) && order[i].off == o {
        if i < |init| { assert IsVar(init[i]) && init[i].off == o; }
      }
    }
  }

  function AreVars(order: seq<Die>): (r: seq<bool>)
    ensures |r| == |order|
    ensures forall i :: 0 <= i < |order| ==>
              (r[i] <==> order[i].tag in {"DW_TAG_variable", "DW_TAG_formal_parameter"})
  {
    seq(|order|, i requires 0 <= i < |order| => order[i].tag in {"DW_TAG_variable", "DW_TAG_formal_parameter"})
  }

  /** The list of variables by position: it names the offsets of exactly the variables among the dies, each once a die
      and in the order of the dies. */
  lemma {:induction false} AllVarsInOrder(order: seq<Die>) returns (at: seq<nat>)
    ensures Filters(Offsets(order), AreVars(order), at, AllVars(order))
    decreases |order|
  {
    hide Filters;
    if order == [] {
      at := [];
      assert Offsets(order) == [];
      FiltersNothing<Off>();
    } else {
      var n := |order| - 1;
      var init, last := order[..n], order[n];
      var before := AllVarsInOrder(init);
      assert Offsets(order) == Offsets(init) + [last.off] && AreVars(order) == AreVars(init) + [IsVar(last)];
      at := FiltersOneMore(Offsets(init), AreVars(init), before, AllVars(init), last.off, IsVar(last));
    }
  }

  /** A mislisted entry in terms of the document: the map gives it a record identifier that is not empty, and no entry
      of that record's list is it. */
  lemma MislistedIs(doc: Doc, o: Off)
    requires Resolvable(doc, o)
    ensures Mislisted(doc, o) <==>
            exists rid :: rid in doc.records && rid != "" && o in doc.offsets && doc.offsets[o] == rid &&
                          forall i :: 0 <= i < |doc.records[rid].dies| ==> doc.records[rid].dies[i] != o
  {
    if o in doc.offsets && doc.offsets[o] != "" {
      var rid := doc.offsets[o];
      assert rid in doc.records;
    }
  }

  /** The map that was built passes its own check: nothing is missing and nothing is mislisted. */
  lemma {:induction false} BuiltMapIsValid(digest: string -> string, dies: Dies, order: seq<Die>, o: Off)
    requires Loaded(dies, order) && o in AllVars(order)
    ensures var doc := BuildUpTo(digest, dies, order, |order|);
            o in doc.offsets && Resolvable(doc, o) && !Mislisted(doc, o)
  {
    hide IsVar, BuildUpTo, RecordId, IdAt;
    AllVarsAre(order, o);
    var i :| 0 <= i < |order| && IsVar(order[i]) && order[i].off == o;
    BuildOffsets(digest, dies, order, |order|, i);
    BuildInverse(digest, dies, order, |order|);
  }

  // ---------- Ambiguous tuples

  /** What the check groups records by: everything but the type. */
  datatype Natural = Natural(func: Option<string>, variable: Option<string>, file: Option<string>, line: Option<string>)

  function NaturalOf(k: RecordKey): Natural {
    Natural(k.func, k.variable, k.file, k.line)
  }

  function SharedBy(doc: Doc, rids: set<string>, n: Natural): set<string>
    requires rids <= doc.records.Keys
  {
    set rid | rid in rids && NaturalOf(doc.records[rid].key) == n
  }

  /** The groups seen so far: each tuple that occurs, with the records that have it. */
  ghost predicate Grouped(doc: Doc, done: set<string>, groups: map<Natural, set<string>>)
    requires done <= doc.records.Keys
  {
    forall n :: (n in groups <==> SharedBy(doc, done, n) != {}) && (n in groups ==> groups[n] == SharedBy(doc, done, n))
  }

  lemma GroupOneMore(doc: Doc, done: set<string>, groups: map<Natural, set<string>>, rid: string)
    requires done <= doc.records.Keys && rid in doc.records && Grouped(doc, done, groups)
    ensures var n := NaturalOf(doc.records[rid].key);
      Grouped(doc, done + {rid}, groups[n := (if n in groups then groups[n] else {}) + {rid}])
  {
    var mine := NaturalOf(doc.records[rid].key);
    forall n ensures SharedBy(doc, done + {rid}, n) == SharedBy(doc, done, n) + if n == mine then {rid} else {} {
    }
    hide SharedBy;
    assert rid in {rid};
  }

  /** Groups the records, in whatever order they are stored, and keeps the groups of two or more. */
  method Ambiguous(doc: Doc) returns (ambiguous: map<Natural, set<string>>)
    ensures forall n :: n in ambiguous <==> |SharedBy(doc, doc.records.Keys, n)| > 1
    ensures forall n :: n in ambiguous ==> ambiguous[n] == SharedBy(doc, doc.records.Keys, n)
  {
    var byTuple: map<Natural, set<string>> := map[];
    var todo := doc.records.Keys;
    ghost var done: set<string> := {};
    assert Grouped(doc, done, byTuple);
    hide SharedBy, Grouped;
    while todo != {}
      invariant todo <= doc.records.Keys && done == doc.records.Keys - todo
      invariant Grouped(doc, done, byTuple)
      decreases |todo|
    {
      var rid :| rid in todo;
      var n := NaturalOf(doc.records[rid].key);
      GroupOneMore(doc, done, byTuple, rid);
      byTuple := byTuple[n := (if n in byTuple then byTuple[n] else {}) + {rid}];
      todo, done := todo - {rid}, done + {rid};
    }
    assert done == doc.records.Keys;
    GroupsAre(doc, byTuple);
    ambiguous := map n | n in byTuple && |byTuple[n]| > 1 :: byTuple[n];
  }

  lemma GroupsAre(doc: Doc, groups: map<Natural, set<string>>)
    requires Grouped(doc, doc.records.Keys, groups)
    ensures forall n :: |SharedBy(doc, doc.records.Keys, n)| > 1 ==> n in groups
    ensures forall n :: n in groups ==> groups[n] == SharedBy(doc, doc.records.Keys, n)
  {
    hide SharedBy;
  }

  /** Function, variable, file and line agree, whatever the type. */
  ghost predicate HasTuple(k: RecordKey, n: Natural) {
    k.func == n.func && k.variable == n.variable && k.file == n.file && k.line == n.line
  }

  lemma TwoMembers(s: set<string>)
    ensures |s| > 1 <==> exists x, y :: x in s && y in s && x != y
  {
    if |s| > 1 {
      var x :| x in s;
      assert |s - {x}| == |s| - 1;
      var y :| y in s - {x};
      assert x in s && y in s && x != y;
    }
    if x, y :| x in s && y in s && x != y {
      assert {x, y} <= s && |{x, y}| == 2;
      SubsetIsSmaller({x, y}, s);
    }
  }

  lemma SubsetIsSmaller(a: set<string>, b: set<string>)
    requires a <= b
    ensures |a| <= |b|
  {
    assert |b - a| == |b| - |a| by { assert b == a + (b - a); }
  }

  /** The reported tuples are exactly those that two or more records share; in a built map the records that share one
      differ pairwise in the type, and only there. */
  lemma AmbiguityIsInTheType(digest: string -> string, doc: Doc, n: Natural)
    requires Inverse(digest, doc)
    ensures var shared := SharedBy(doc, doc.records.Keys, n);
      && (forall r :: r in shared <==> r in doc.records && HasTuple(doc.records[r].key, n))
      && (|shared| > 1 <==> exists r, q :: r in shared && q in shared && r != q)
      && forall r, q :: r in shared && q in shared ==>
           (r == q <==> doc.records[r].key.typ == doc.records[q].key.typ)
  {
    TwoMembers(SharedBy(doc, doc.records.Keys, n));
    hide RecordId;
    forall r, q | r in doc.records && q in doc.records && NaturalOf(doc.records[r].key) == NaturalOf(doc.records[q].key)
      ensures r == q <==> doc.records[r].key.typ == doc.records[q].key.typ
    {
      assert RecordId(digest, doc.records[r].key) == r && RecordId(digest, doc.records[q].key) == q;
    }
  }
}
