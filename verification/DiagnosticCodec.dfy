/** The cached-transform payload: bytecode, a length-prefixed tree of diagnostics, and a footer. */
module DiagnosticCodec {
  import opened ByteStrings

  const WORD_LIMIT: nat := 0x1_0000_0000_0000_0000

  /** A diagnostic with its nested notes; L is the type of source locations. */
  datatype Diag<L> = Diag(severity: Byte, loc: L, message: Bytes, notes: seq<Diag<L>>)

  /** How locations are printed and parsed back. */
  datatype Locations<!L(!new)> = Locations(show: L -> Bytes, parse: Bytes -> Option<L>) {
    ghost predicate Faithful() {
      forall l {:trigger show(l)} :: parse(show(l)) == Some(l)
    }
  }

  // ---------- Words and strings

  function LittleEndian(n: nat, k: nat): (b: Bytes)
    ensures |b| == k
  {
    if k == 0 then [] else [n % 256] + LittleEndian(n / 256, k - 1)
  }

  function FromLittleEndian(b: Bytes): nat {
    if b == [] then 0 else b[0] + 256 * FromLittleEndian(b[1..])
  }

  /** The 8 bytes of a 64-bit word. */
  function Word(n: nat): (b: Bytes)
    ensures |b| == 8
  {
    LittleEndian(n % WORD_LIMIT, 8)
  }

  function EncodeString(s: Bytes): Bytes {
    Word(|s|) + s + [0]
  }

  // ---------- Encoding

  function EncodeList<L(!new)>(c: Locations<L>, ds: seq<Diag<L>>): Bytes
    decreases ds, 1
  {
    Word(|ds|) + EncodeItems(c, ds)
  }

  function EncodeItems<L(!new)>(c: Locations<L>, ds: seq<Diag<L>>): Bytes
    decreases ds, 0
  {
    if ds == [] then [] else EncodeOne(c, ds[0]) + EncodeItems(c, ds[1..])
  }

  function EncodeOne<L(!new)>(c: Locations<L>, d: Diag<L>): Bytes
    decreases d, 0
  {
    [d.severity] + EncodeString(c.show(d.loc)) + EncodeString(d.message) + EncodeList(c, d.notes)
  }

  // ---------- Decoding

  datatype Error = BadInt | BadString | NoDiagnostic | BadLocation

  datatype Decoded<+T> = Ok(value: T, rest: Bytes) | Err(error: Error) {
    predicate IsFailure() { Err? }
    function PropagateFailure<U>(): Decoded<U>
      requires Err?
    {
      Err(error)
    }
    function Extract(): (T, Bytes)
      requires Ok?
    {
      (value, rest)
    }
  }

  /** What is left unread is the end of the input. */
  ghost predicate Suffix(rest: Bytes, data: Bytes) {
    |rest| <= |data| && rest == data[|data| - |rest|..]
  }

  lemma SuffixTransitive(a: Bytes, b: Bytes, c: Bytes)
    requires Suffix(a, b) && Suffix(b, c)
    ensures Suffix(a, c)
  {
  }

  function ReadInt(data: Bytes): (r: Decoded<nat>)
    ensures r.Ok? <==> |data| >= 8
    ensures r.Ok? ==> |r.rest| == |data| - 8 && Suffix(r.rest, data)
  {
    if |data| < 8 then Err(BadInt) else Ok(FromLittleEndian(data[..8]), data[8..])
  }

  function ReadString(data: Bytes): (r: Decoded<Bytes>)
    ensures r.Ok? ==> |r.rest| + |r.value| + 9 == |data| && Suffix(r.rest, data)
  {
    var (size, rest) :- ReadInt(data);
    if size + 1 > |rest| then Err(BadString) else
    SuffixTransitive(rest[size + 1..], rest, data);
    Ok(rest[..size], rest[size + 1..])
  }

  function DecodeList<L(!new)>(c: Locations<L>, data: Bytes): (r: Decoded<seq<Diag<L>>>)
    ensures r.Ok? ==> |r.rest| <= |data| - 8 && Suffix(r.rest, data)
    decreases |data|, 2
  {
    var (n, rest) :- ReadInt(data);
    var (ds, rest') :- DecodeItems(c, n, rest);
    SuffixTransitive(rest', rest, data);
    Ok(ds, rest')
  }

  function DecodeItems<L(!new)>(c: Locations<L>, n: nat, data: Bytes): (r: Decoded<seq<Diag<L>>>)
    ensures r.Ok? ==> |r.value| == n && Suffix(r.rest, data)
    decreases |data|, 1
  {
    if n == 0 then Ok([], data) else
    var (d, rest) :- DecodeOne(c, data);
    var (ds, rest') :- DecodeItems(c, n - 1, rest);
    SuffixTransitive(rest', rest, data);
    Ok([d] + ds, rest')
  }

  function DecodeOne<L(!new)>(c: Locations<L>, data: Bytes): (r: Decoded<Diag<L>>)
    ensures r.Ok? ==> |r.rest| < |data| && Suffix(r.rest, data)
    decreases |data|, 0
  {
    if data == [] then Err(NoDiagnostic) else
    var (locationStr, rest1) :- ReadString(data[1..]);
    var parsed := c.parse(locationStr);
    if parsed.None? then Err(BadLocation) else
    var (message, rest2) :- ReadString(rest1);
    var (notes, rest3) :- DecodeList(c, rest2);
    SuffixTransitive(rest1, data[1..], data);
    SuffixTransitive(rest2, rest1, data);
    SuffixTransitive(rest3, rest2, data);
    Ok(Diag(data[0], parsed.value, message, notes), rest3)
  }

  // ---------- Round trip

  /** Every size that is written fits the word it is written in. */
  ghost predicate Encodable<L(!new)>(c: Locations<L>, d: Diag<L>)
    decreases d
  {
    |c.show(d.loc)| < WORD_LIMIT && |d.message| < WORD_LIMIT && |d.notes| < WORD_LIMIT &&
    forall i :: 0 <= i < |d.notes| ==> Encodable(c, d.notes[i])
  }

  ghost predicate EncodableList<L(!new)>(c: Locations<L>, ds: seq<Diag<L>>) {
    |ds| < WORD_LIMIT && forall i :: 0 <= i < |ds| ==> Encodable(c, ds[i])
  }

  function Limit(k: nat): (m: nat)
    ensures m >= 1
  {
    if k == 0 then 1 else 256 * Limit(k - 1)
  }

  lemma {:induction false} LittleEndianRoundTrip(n: nat, k: nat)
    requires n < Limit(k)
    ensures FromLittleEndian(LittleEndian(n, k)) == n
  {
    if k == 0 {
    } else {
      LittleEndianRoundTrip(n / 256, k - 1);
      assert LittleEndian(n, k)[1..] == LittleEndian(n / 256, k - 1);
    }
  }

  lemma WordLimit()
    ensures Limit(8) == WORD_LIMIT
  {
  }

  lemma WordRoundTrip(n: nat, tail: Bytes)
    requires n < WORD_LIMIT
    ensures ReadInt(Word(n) + tail) == Ok(n, tail)
  {
    hide LittleEndian, FromLittleEndian, Limit;
    WordLimit();
    LittleEndianRoundTrip(n, 8);
    var data := Word(n) + tail;
    assert data[..8] == Word(n) && data[8..] == tail;
  }

  lemma StringRoundTrip(s: Bytes, tail: Bytes)
    requires |s| < WORD_LIMIT
    ensures ReadString(EncodeString(s) + tail) == Ok(s, tail)
  {
    hide Word, ReadInt;
    var after := s + [0] + tail;
    assert EncodeString(s) + tail == Word(|s|) + after;
    WordRoundTrip(|s|, after);
    assert after[..|s|] == s && after[|s| + 1..] == tail;
  }

  /** Decoding an encoded tree followed by anything gives back the tree and exactly what followed. */
  lemma {:induction false} RoundTrip<L(!new)>(c: Locations<L>, ds: seq<Diag<L>>, tail: Bytes)
    requires c.Faithful() && EncodableList(c, ds)
    ensures DecodeList(c, EncodeList(c, ds) + tail) == Ok(ds, tail)
    decreases ds, 1
  {
    hide Word, EncodeItems, DecodeItems, Encodable, ReadInt;
    assert EncodeList(c, ds) + tail == Word(|ds|) + (EncodeItems(c, ds) + tail);
    WordRoundTrip(|ds|, EncodeItems(c, ds) + tail);
    ItemsRoundTrip(c, ds, tail);
  }

  lemma {:induction false} ItemsRoundTrip<L(!new)>(c: Locations<L>, ds: seq<Diag<L>>, tail: Bytes)
    requires c.Faithful() && forall i :: 0 <= i < |ds| ==> Encodable(c, ds[i])
    ensures DecodeItems(c, |ds|, EncodeItems(c, ds) + tail) == Ok(ds, tail)
    decreases ds, 0
  {
    hide EncodeOne, DecodeOne, Encodable;
    if ds == [] {
      assert EncodeItems(c, ds) + tail == tail;
    } else {
      var rest := EncodeItems(c, ds[1..]) + tail;
      assert EncodeItems(c, ds) + tail == EncodeOne(c, ds[0]) + rest;
      OneRoundTrip(c, ds[0], rest);
      ItemsRoundTrip(c, ds[1..], tail);
      assert [ds[0]] + ds[1..] == ds;
    }
  }

  lemma {:induction false} OneRoundTrip<L(!new)>(c: Locations<L>, d: Diag<L>, tail: Bytes)
    requires c.Faithful() && Encodable(c, d)
    ensures DecodeOne(c, EncodeOne(c, d) + tail) == Ok(d, tail)
    decreases d, 0
  {
    hide EncodeString, ReadString, EncodeList, DecodeList;
    var notes := EncodeList(c, d.notes) + tail;
    var message := EncodeString(d.message) + notes;
    var location := EncodeString(c.show(d.loc)) + message;
    var data := EncodeOne(c, d) + tail;
    assert data == [d.severity] + location;
    assert data[1..] == location;
    StringRoundTrip(c.show(d.loc), message);
    StringRoundTrip(d.message, notes);
    RoundTrip(c, d.notes, tail);
  }

  /** The encoding is prefix-free: equal bytes carry equal trees and equal trailers. */
  lemma EncodingUnambiguous<L(!new)>(c: Locations<L>, ds: seq<Diag<L>>, es: seq<Diag<L>>, t: Bytes, u: Bytes)
    requires c.Faithful() && EncodableList(c, ds) && EncodableList(c, es)
    requires EncodeList(c, ds) + t == EncodeList(c, es) + u
    ensures ds == es && t == u
  {
    RoundTrip(c, ds, t);
    RoundTrip(c, es, u);
  }

  // ---------- The encoder and decoder as loops

  /** The growing output buffer. */
  class WriteableBuffer {
    var data: Bytes

    constructor ()
      ensures data == []
    {
      data := [];
    }

    method Write(b: Bytes)
      modifies this
      ensures data == old(data) + b
    {
      data := data + b;
    }
  }

  lemma {:induction false} EncodeItemsAppend<L(!new)>(c: Locations<L>, ds: seq<Diag<L>>, d: Diag<L>)
    ensures EncodeItems(c, ds + [d]) == EncodeItems(c, ds) + EncodeOne(c, d)
  {
    hide EncodeOne;
    if ds == [] {
      assert ds + [d] == [d] && [d][1..] == [];
    } else {
      EncodeItemsAppend(c, ds[1..], d);
      assert (ds + [d])[1..] == ds[1..] + [d];
    }
  }

  method WriteString(buf: WriteableBuffer, s: Bytes)
    modifies buf
    ensures buf.data == old(buf.data) + EncodeString(s)
  {
    hide Word;
    buf.Write(Word(|s|));
    buf.Write(s);
    buf.Write([0]);
  }

  /** Appends the encoding of the diagnostics, notes and all, to the buffer. */
  method EncodeDiagnostics<L(!new)>(c: Locations<L>, ds: seq<Diag<L>>, buf: WriteableBuffer)
    modifies buf
    ensures buf.data == old(buf.data) + EncodeList(c, ds)
    decreases ds, 1
  {
    hide EncodeOne, EncodeString, Word;
    buf.Write(Word(|ds|));
    ghost var start := buf.data;
    for i := 0 to |ds|
      invariant buf.data == start + EncodeItems(c, ds[..i])
    {
      EncodeItemsAppend(c, ds[..i], ds[i]);
      assert ds[..i] + [ds[i]] == ds[..i + 1];
      WriteDiagnostic(c, ds[i], buf);
    }
    assert ds[..|ds|] == ds;
  }

  method WriteDiagnostic<L(!new)>(c: Locations<L>, d: Diag<L>, buf: WriteableBuffer)
    modifies buf
    ensures buf.data == old(buf.data) + EncodeOne(c, d)
    decreases d, 0
  {
    hide EncodeList, EncodeString, Word;
    buf.Write([d.severity]);
    WriteString(buf, c.show(d.loc));
    WriteString(buf, d.message);
    EncodeDiagnostics(c, d.notes, buf);
  }

  /** Puts already decoded diagnostics in front of a result. */
  function Prefixed<L>(done: seq<Diag<L>>, r: Decoded<seq<Diag<L>>>): Decoded<seq<Diag<L>>> {
    if r.Err? then r else Ok(done + r.value, r.rest)
  }

  /** The decoding loop: reads from position it and, on success, leaves the position just after what it read. */
  method DecodeDiagnostics<L(!new)>(c: Locations<L>, data: Bytes, it: nat) returns (r: Decoded<seq<Diag<L>>>, it': nat)
    requires it <= |data|
    ensures r == DecodeList(c, data[it..])
    ensures it <= it' <= |data| && (r.Ok? ==> r.rest == data[it'..])
    decreases |data| - it, 2
  {
    hide DecodeOne, FromLittleEndian;
    it' := it;
    var count := ReadInt(data[it..]);
    if count.Err? {
      return Err(count.error), it';
    }
    it' := it + 8;
    var diagnostics: seq<Diag<L>> := [];
    assert data[it..][8..] == data[it'..];
    NothingDone(DecodeList(c, data[it..]));
    for i := 0 to count.value
      invariant it + 8 <= it' <= |data|
      invariant DecodeList(c, data[it..]) == Prefixed(diagnostics, DecodeItems(c, count.value - i, data[it'..]))
    {
      var one, next := DecodeDiagnostic(c, data, it');
      if one.Err? {
        return Err(one.error), it';
      }
      TakeOne(c, count.value - i, data[it'..], diagnostics);
      diagnostics := diagnostics + [one.value];
      it' := next;
    }
    assert diagnostics + [] == diagnostics;
    r := Ok(diagnostics, data[it'..]);
  }

  lemma NothingDone<L(!new)>(r: Decoded<seq<Diag<L>>>)
    ensures Prefixed([], r) == r
  {
    if r.Ok? { assert [] + r.value == r.value; }
  }

  lemma TakeOne<L(!new)>(c: Locations<L>, n: nat, data: Bytes, done: seq<Diag<L>>)
    requires n > 0 && DecodeOne(c, data).Ok?
    ensures Prefixed(done, DecodeItems(c, n, data)) ==
            Prefixed(done + [DecodeOne(c, data).value], DecodeItems(c, n - 1, DecodeOne(c, data).rest))
  {
    hide DecodeOne;
    var tail := DecodeItems(c, n - 1, DecodeOne(c, data).rest);
    if tail.Ok? {
      var d := DecodeOne(c, data).value;
      assert done + ([d] + tail.value) == done + [d] + tail.value;
    }
  }

  method DecodeDiagnostic<L(!new)>(c: Locations<L>, data: Bytes, it: nat) returns (r: Decoded<Diag<L>>, it': nat)
    requires it <= |data|
    ensures r == DecodeOne(c, data[it..])
    ensures it <= it' <= |data| && (r.Ok? ==> it < it' && r.rest == data[it'..])
    decreases |data| - it, 0
  {
    it' := it;
    if it == |data| {
      return Err(NoDiagnostic), it';
    }
    assert data[it..][1..] == data[it + 1..];
    var location := ReadString(data[it + 1..]);
    if location.Err? {
      return Err(location.error), it';
    }
    var at1 := |data| - |location.rest|;
    assert location.rest == data[at1..];
    var parsed := c.parse(location.value);
    if parsed.None? {
      return Err(BadLocation), it';
    }
    var message := ReadString(location.rest);
    if message.Err? {
      return Err(message.error), it';
    }
    var at2 := |data| - |message.rest|;
    assert message.rest == data[at2..];
    var notes, at3 := DecodeDiagnostics(c, data, at2);
    if notes.Err? {
      return Err(notes.error), it';
    }
    return Ok(Diag(data[it], parsed.value, message.value, notes.value), notes.rest), at3;
  }

  // ---------- The bytes themselves

  lemma FourBytes(b: Bytes)
    requires |b| >= 4
    ensures FromLittleEndian(b) ==
            b[0] as int + 0x100 * (b[1] as int) + 0x1_0000 * (b[2] as int) + 0x100_0000 * (b[3] as int) +
            0x1_0000_0000 * FromLittleEndian(b[4..])
  {
    var b1, b2, b3 := b[1..], b[2..], b[3..];
    assert b1[1..] == b2 && b2[1..] == b3 && b3[1..] == b[4..];
    assert FromLittleEndian(b3) == b[3] + 256 * FromLittleEndian(b[4..]);
    assert FromLittleEndian(b2) == b[2] + 256 * FromLittleEndian(b3);
    assert FromLittleEndian(b1) == b[1] + 256 * FromLittleEndian(b2);
  }

  /** A count or size is written as eight bytes, the lowest first. */
  lemma WordLayout(n: nat)
    requires n < WORD_LIMIT
    ensures var w := Word(n);
      n == w[0] as int + 0x100 * (w[1] as int) + 0x1_0000 * (w[2] as int) + 0x100_0000 * (w[3] as int) +
           0x1_0000_0000 * (w[4] as int) +
           0x100_0000_0000 * (w[5] as int) + 0x1_0000_0000_0000 * (w[6] as int) + 0x100_0000_0000_0000 * (w[7] as int)
  {
    var w := Word(n);
    WordRoundTrip(n, []);
    assert w + [] == w && w[..8] == w;
    hide Word;
    FourBytes(w);
    FourBytes(w[4..]);
    assert w[4..][4..] == [];
  }

  /** A string is its size, its bytes and a terminator. */
  lemma StringLayout(s: Bytes)
    ensures var e := EncodeString(s);
      && |e| == |s| + 9 && e[..8] == Word(|s|) && e[8..8 + |s|] == s && e[8 + |s|] == 0
  {
    hide Word;
  }

  /** A diagnostic is its severity, its printed location, its message, each string terminated, and then its notes. */
  lemma DiagnosticLayout<L(!new)>(c: Locations<L>, d: Diag<L>)
    ensures var e, at1 := EncodeOne(c, d), 9 + |c.show(d.loc)|;
      var at2 := at1 + 9 + |d.message|;
      && at2 < |e| && e[0] == d.severity
      && e[9..at1] == c.show(d.loc) && e[at1] == 0
      && e[at1 + 9..at2] == d.message && e[at2] == 0
      && e[at2 + 1..] == EncodeList(c, d.notes)
  {
    hide EncodeList, Word;
    var a, b, notes := EncodeString(c.show(d.loc)), EncodeString(d.message), EncodeList(c, d.notes);
    var e := EncodeOne(c, d);
    StringLayout(c.show(d.loc));
    StringLayout(d.message);
    hide EncodeString;
    assert e[1..1 + |a|] == a;
    assert e[1 + |a|..1 + |a| + |b|] == b;
    assert e[1 + |a| + |b|..] == notes;
  }

  /** A list is its length and then its diagnostics: each one more follows those before it, and the count goes up. */
  lemma ListLayout<L(!new)>(c: Locations<L>, ds: seq<Diag<L>>, d: Diag<L>)
    ensures EncodeList(c, []) == Word(0)
    ensures |EncodeList(c, ds)| >= 8 && EncodeList(c, ds)[..8] == Word(|ds|)
    ensures EncodeList(c, ds + [d]) == Word(|ds| + 1) + EncodeList(c, ds)[8..] + EncodeOne(c, d)
  {
    EncodeItemsAppend(c, ds, d);
    hide EncodeOne, Word;
    var items := EncodeItems(c, ds);
    assert EncodeList(c, ds)[8..] == items;
    assert Word(|ds| + 1) + (items + EncodeOne(c, d)) == Word(|ds| + 1) + items + EncodeOne(c, d);
  }

  // ---------- Which bytes decode, and to what

  /** The bytes of a string: its size in eight bytes, its bytes, and one more byte, whatever it is. */
  ghost predicate StringText(b: Bytes, v: Bytes) {
    |v| < WORD_LIMIT && |b| == |v| + 9 && b[..8] == Word(|v|) && b[8..8 + |v|] == v
  }

  /** The bytes of a diagnostic: its severity, a string that parses to its location, its message and its notes. */
  ghost predicate OneText<L(!new)>(c: Locations<L>, b: Bytes, d: Diag<L>)
    decreases d, 0
  {
    exists loc, x, y, z :: b == [d.severity] + x + y + z && StringText(x, loc) && c.parse(loc) == Some(d.loc) &&
                           StringText(y, d.message) && ListText(c, z, d.notes)
  }

  /** The bytes of a list: its length in eight bytes, then its diagnostics. */
  ghost predicate ListText<L(!new)>(c: Locations<L>, b: Bytes, ds: seq<Diag<L>>)
    decreases ds, 1
  {
    |ds| < WORD_LIMIT && |b| >= 8 && b[..8] == Word(|ds|) && ItemsText(c, b[8..], ds)
  }

  ghost predicate ItemsText<L(!new)>(c: Locations<L>, b: Bytes, ds: seq<Diag<L>>)
    decreases ds, 0
  {
    if ds == [] then b == []
    else exists x, y :: b == x + y && OneText(c, x, ds[0]) && ItemsText(c, y, ds[1..])
  }

  lemma {:induction false} BytesAreNumber(b: Bytes)
    ensures FromLittleEndian(b) < Limit(|b|) && LittleEndian(FromLittleEndian(b), |b|) == b
  {
    if b == [] {
    } else {
      BytesAreNumber(b[1..]);
      var n := FromLittleEndian(b[1..]);
      assert (b[0] + 256 * n) / 256 == n && (b[0] + 256 * n) % 256 == b[0];
    }
  }

  lemma IntSound(data: Bytes)
    requires ReadInt(data).Ok?
    ensures ReadInt(data).value < WORD_LIMIT && data[..8] == Word(ReadInt(data).value)
  {
    hide LittleEndian, FromLittleEndian, Limit;
    WordLimit();
    BytesAreNumber(data[..8]);
  }

  /** A string is read exactly from the bytes of one, and leaves exactly what follows them. */
  lemma ReadsExactly(data: Bytes, v: Bytes, rest: Bytes)
    ensures ReadString(data) == Ok(v, rest) <==>
            |data| == |v| + 9 + |rest| && StringText(data[..|v| + 9], v) && rest == data[|v| + 9..]
  {
    hide FromLittleEndian, LittleEndian, Word;
    if ReadString(data).Ok? {
      IntSound(data);
      var text := data[..|ReadString(data).value| + 9];
      assert text[..8] == data[..8] && text[8..8 + |ReadString(data).value|] == ReadString(data).value;
    }
    if |data| == |v| + 9 + |rest| && StringText(data[..|v| + 9], v) && rest == data[|v| + 9..] {
      assert data[..8] == data[..|v| + 9][..8];
      assert data == Word(|v|) + data[8..];
      WordRoundTrip(|v|, data[8..]);
      assert data[8..][..|v|] == data[..|v| + 9][8..8 + |v|];
      assert data[8..][|v| + 1..] == data[|v| + 9..];
    }
  }

  lemma StringSound(data: Bytes) returns (x: Bytes)
    requires ReadString(data).Ok?
    ensures data == x + ReadString(data).rest && StringText(x, ReadString(data).value)
  {
    hide ReadString, StringText;
    var Ok(v, rest) := ReadString(data);
    ReadsExactly(data, v, rest);
    x := data[..|v| + 9];
  }

  lemma StringComplete(x: Bytes, v: Bytes, rest: Bytes)
    requires StringText(x, v)
    ensures ReadString(x + rest) == Ok(v, rest)
  {
    hide ReadString, Word;
    assert (x + rest)[..|x|] == x && (x + rest)[|x|..] == rest;
    ReadsExactly(x + rest, v, rest);
  }

  lemma {:induction false} OneSound<L(!new)>(c: Locations<L>, data: Bytes) returns (b: Bytes)
    requires DecodeOne(c, data).Ok?
    ensures data == b + DecodeOne(c, data).rest && OneText(c, b, DecodeOne(c, data).value)
    decreases |data|, 0
  {
    hide ReadString, StringText, DecodeList, ListText, Suffix;
    var d := DecodeOne(c, data).value;
    var Ok(loc, rest1) := ReadString(data[1..]);
    var x := StringSound(data[1..]);
    var Ok(message, rest2) := ReadString(rest1);
    var y := StringSound(rest1);
    var z := ListSound(c, rest2);
    b := [d.severity] + x + y + z;
    FourParts(data, x, y, z, DecodeOne(c, data).rest);
    OneTextIs(c, b, d, loc, x, y, z);
  }

  lemma FourParts(data: Bytes, x: Bytes, y: Bytes, z: Bytes, rest: Bytes)
    requires data != [] && data[1..] == x + (y + (z + rest))
    ensures data == [data[0]] + x + y + z + rest
  {
    assert data == [data[0]] + data[1..];
    assert [data[0]] + x + y + z + rest == [data[0]] + (x + (y + (z + rest)));
  }

  lemma OneTextIs<L(!new)>(c: Locations<L>, b: Bytes, d: Diag<L>, loc: Bytes, x: Bytes, y: Bytes, z: Bytes)
    requires b == [d.severity] + x + y + z && StringText(x, loc) && c.parse(loc) == Some(d.loc)
    requires StringText(y, d.message) && ListText(c, z, d.notes)
    ensures OneText(c, b, d)
  {
    hide StringText, ListText;
  }

  lemma {:induction false} ListSound<L(!new)>(c: Locations<L>, data: Bytes) returns (b: Bytes)
    requires DecodeList(c, data).Ok?
    ensures data == b + DecodeList(c, data).rest && ListText(c, b, DecodeList(c, data).value)
    decreases |data|, 2
  {
    hide DecodeItems, ItemsText, Word, Suffix;
    IntSound(data);
    var Ok(n, rest) := ReadInt(data);
    var items := ItemsSound(c, n, rest);
    b := data[..8] + items;
    assert b[8..] == items && b[..8] == data[..8];
    assert data == data[..8] + rest;
  }

  lemma {:induction false} ItemsSound<L(!new)>(c: Locations<L>, n: nat, data: Bytes) returns (b: Bytes)
    requires DecodeItems(c, n, data).Ok?
    ensures data == b + DecodeItems(c, n, data).rest && ItemsText(c, b, DecodeItems(c, n, data).value)
    decreases |data|, 1
  {
    hide DecodeOne, OneText, Suffix;
    if n == 0 {
      b := [];
    } else {
      var Ok(d, rest) := DecodeOne(c, data);
      var x := OneSound(c, data);
      var y := ItemsSound(c, n - 1, rest);
      b := x + y;
      var ds := DecodeItems(c, n, data).value;
      assert ds[0] == d && ds[1..] == DecodeItems(c, n - 1, rest).value;
    }
  }

  lemma {:induction false} OneComplete<L(!new)>(c: Locations<L>, b: Bytes, d: Diag<L>, rest: Bytes)
    requires OneText(c, b, d)
    ensures DecodeOne(c, b + rest) == Ok(d, rest)
    decreases d, 0
  {
    hide ReadString, StringText, DecodeList, ListText;
    var loc, x, y, z :| b == [d.severity] + x + y + z && StringText(x, loc) && c.parse(loc) == Some(d.loc) &&
                        StringText(y, d.message) && ListText(c, z, d.notes);
    assert (b + rest)[1..] == x + (y + (z + rest));
    StringComplete(x, loc, y + (z + rest));
    StringComplete(y, d.message, z + rest);
    ListComplete(c, z, d.notes, rest);
  }

  lemma {:induction false} ListComplete<L(!new)>(c: Locations<L>, b: Bytes, ds: seq<Diag<L>>, rest: Bytes)
    requires ListText(c, b, ds)
    ensures DecodeList(c, b + rest) == Ok(ds, rest)
    decreases ds, 1
  {
    hide DecodeItems, ItemsText, Word, ReadInt;
    assert b + rest == Word(|ds|) + (b[8..] + rest);
    WordRoundTrip(|ds|, b[8..] + rest);
    ItemsComplete(c, b[8..], ds, rest);
  }

  lemma {:induction false} ItemsComplete<L(!new)>(c: Locations<L>, b: Bytes, ds: seq<Diag<L>>, rest: Bytes)
    requires ItemsText(c, b, ds)
    ensures DecodeItems(c, |ds|, b + rest) == Ok(ds, rest)
    decreases ds, 0
  {
    hide DecodeOne, OneText;
    if ds == [] {
      assert b + rest == rest;
    } else {
      var x, y :| b == x + y && OneText(c, x, ds[0]) && ItemsText(c, y, ds[1..]);
      assert b + rest == x + (y + rest);
      OneComplete(c, x, ds[0], y + rest);
      ItemsComplete(c, y, ds[1..], rest);
      assert [ds[0]] + ds[1..] == ds;
    }
  }

  /** The decoder is exactly the grammar: data decodes to a list with a rest if and only if it is the bytes of that list
      followed by that rest. So it fails exactly when no beginning of the data is the bytes of a list. */
  lemma DecodesExactly<L(!new)>(c: Locations<L>, data: Bytes, ds: seq<Diag<L>>, rest: Bytes)
    ensures DecodeList(c, data) == Ok(ds, rest) <==> exists b :: data == b + rest && ListText(c, b, ds)
    ensures DecodeList(c, data).Err? <==> forall b, es, r :: data == b + r ==> !ListText(c, b, es)
  {
    hide DecodeList, ListText;
    if DecodeList(c, data).Ok? {
      var b := ListSound(c, data);
    }
    forall b, es, r | data == b + r && ListText(c, b, es) ensures DecodeList(c, data) == Ok(es, r) {
      ListComplete(c, b, es, r);
    }
  }

  // ---------- Failures

  /** A string is refused for its size exactly when no size can be read, and for its bytes exactly when the size and
      the terminator do not fit. */
  lemma ReadStringFails(data: Bytes)
    ensures ReadString(data) == Err(BadInt) <==> |data| < 8
    ensures ReadString(data) == Err(BadString) <==> |data| >= 8 && FromLittleEndian(data[..8]) + 9 > |data|
  {
    hide FromLittleEndian;
  }

  /** A diagnostic fails with the first thing that is wrong with it. */
  lemma FirstFailure<L(!new)>(c: Locations<L>, data: Bytes)
    ensures data == [] ==> DecodeOne(c, data) == Err(NoDiagnostic)
    ensures data != [] && ReadString(data[1..]).Err? ==> DecodeOne(c, data) == Err(ReadString(data[1..]).error)
    ensures data != [] && ReadString(data[1..]).Ok? && c.parse(ReadString(data[1..]).value).None? ==>
              DecodeOne(c, data) == Err(BadLocation)
    ensures data != [] && ReadString(data[1..]).Ok? && c.parse(ReadString(data[1..]).value).Some? ==>
      var message := ReadString(ReadString(data[1..]).rest);
      && (message.Err? ==> DecodeOne(c, data) == Err(message.error))
      && (message.Ok? && DecodeList(c, message.rest).Err? ==>
            DecodeOne(c, data) == Err(DecodeList(c, message.rest).error))
      && (message.Ok? && DecodeList(c, message.rest).Ok? ==> DecodeOne(c, data).Ok?)
  {
    hide ReadString, DecodeList;
  }

  lemma {:induction false} ItemsFailure<L(!new)>(c: Locations<L>, n: nat, data: Bytes)
    returns (ds: seq<Diag<L>>, b: Bytes, rest: Bytes)
    requires DecodeItems(c, n, data).Err?
    ensures |ds| < n && data == b + rest && ItemsText(c, b, ds)
    ensures DecodeOne(c, rest).Err? && DecodeOne(c, rest).error == DecodeItems(c, n, data).error
    decreases |data|, 1
  {
    hide DecodeOne, OneText, Suffix;
    if DecodeOne(c, data).Err? {
      ds, b, rest := [], [], data;
    } else {
      var x := OneSound(c, data);
      var d := DecodeOne(c, data).value;
      var ds', b', rest' := ItemsFailure(c, n - 1, DecodeOne(c, data).rest);
      ds, b, rest := [d] + ds', x + b', rest';
      assert ds[0] == d && ds[1..] == ds';
      assert x + (b' + rest') == x + b' + rest';
    }
  }

  /** A list fails for its length when no length can be read, and otherwise as the first diagnostic that does not
      decode: everything before that one is the bytes of fewer diagnostics than the length asks for. */
  lemma ListFailure<L(!new)>(c: Locations<L>, data: Bytes) returns (ds: seq<Diag<L>>, b: Bytes, rest: Bytes)
    requires DecodeList(c, data).Err?
    ensures |data| < 8 ==> DecodeList(c, data) == Err(BadInt)
    ensures |data| >= 8 ==>
      && data[8..] == b + rest && ItemsText(c, b, ds) && |ds| < FromLittleEndian(data[..8])
      && DecodeOne(c, rest).Err? && DecodeList(c, data) == Err(DecodeOne(c, rest).error)
  {
    hide DecodeItems, DecodeOne, ItemsText, FromLittleEndian, Suffix;
    ds, b, rest := [], [], [];
    if |data| >= 8 {
      ds, b, rest := ItemsFailure(c, FromLittleEndian(data[..8]), data[8..]);
    }
  }

  lemma ReadIntStable(data: Bytes, more: Bytes)
    requires ReadInt(data).Ok?
    ensures ReadInt(data + more) == Ok(ReadInt(data).value, ReadInt(data).rest + more)
  {
    assert (data + more)[..8] == data[..8] && (data + more)[8..] == data[8..] + more;
  }

  lemma ReadStringStable(data: Bytes, more: Bytes)
    requires ReadString(data).Ok?
    ensures ReadString(data + more) == Ok(ReadString(data).value, ReadString(data).rest + more)
  {
    hide FromLittleEndian;
    ReadIntStable(data, more);
    var Ok(size, rest) := ReadInt(data);
    assert (rest + more)[..size] == rest[..size] && (rest + more)[size + 1..] == rest[size + 1..] + more;
  }

  /** What decodes still decodes when more bytes follow, and leaves them unread. */
  lemma {:induction false} ListStable<L(!new)>(c: Locations<L>, data: Bytes, more: Bytes)
    requires DecodeList(c, data).Ok?
    ensures DecodeList(c, data + more) == Ok(DecodeList(c, data).value, DecodeList(c, data).rest + more)
    decreases |data|, 2
  {
    hide DecodeItems, ReadInt;
    ReadIntStable(data, more);
    var Ok(n, rest) := ReadInt(data);
    assert |rest| < |data| by { RestShrinks(data); }
    ItemsStable(c, n, rest, more);
  }

  lemma RestShrinks(data: Bytes)
    requires ReadInt(data).Ok?
    ensures |ReadInt(data).rest| < |data|
  {
  }

  lemma {:induction false} ItemsStable<L(!new)>(c: Locations<L>, n: nat, data: Bytes, more: Bytes)
    requires DecodeItems(c, n, data).Ok?
    ensures DecodeItems(c, n, data + more) == Ok(DecodeItems(c, n, data).value, DecodeItems(c, n, data).rest + more)
    decreases |data|, 1
  {
    hide DecodeOne;
    if n == 0 {
    } else {
      OneStable(c, data, more);
      ItemsStable(c, n - 1, DecodeOne(c, data).rest, more);
    }
  }

  lemma {:induction false} OneStable<L(!new)>(c: Locations<L>, data: Bytes, more: Bytes)
    requires DecodeOne(c, data).Ok?
    ensures DecodeOne(c, data + more) == Ok(DecodeOne(c, data).value, DecodeOne(c, data).rest + more)
    decreases |data|, 0
  {
    hide ReadString, DecodeList;
    var location := ReadString(data[1..]);
    var message := ReadString(location.rest);
    assert (data + more)[1..] == data[1..] + more && (data + more)[0] == data[0];
    ReadStringStable(data[1..], more);
    ReadStringStable(location.rest, more);
    ListStable(c, message.rest, more);
  }

  /** A truncated encoding is always refused. */
  lemma TruncationIsDetected<L(!new)>(c: Locations<L>, ds: seq<Diag<L>>, n: nat)
    requires c.Faithful() && EncodableList(c, ds) && n < |EncodeList(c, ds)|
    ensures DecodeList(c, EncodeList(c, ds)[..n]).Err?
  {
    hide EncodeList, DecodeList;
    var e := EncodeList(c, ds);
    RoundTrip(c, ds, []);
    assert e + [] == e && e[..n] + e[n..] == e;
    if DecodeList(c, e[..n]).Ok? {
      ListStable(c, e[..n], e[n..]);
    }
  }

  // ---------- The bound test over machine addresses

  /** The string bound as the source computes it: addresses are 64-bit words, so the sum wraps around. */
  predicate TestRejects(address: nat, end: nat, size: nat) {
    (address + size + 1) % WORD_LIMIT > end
  }

  /** Whether the string and its terminator really pass the end. */
  predicate PassesEnd(address: nat, end: nat, size: nat) {
    address + size + 1 > end
  }

  /** The computed test is right if and only if its sum does not wrap around, and it never refuses what fits; so
      whatever the decoder reads over mathematical offsets it also reads over addresses. */
  lemma BoundTestExactly(address: nat, end: nat, size: nat)
    requires address <= end < WORD_LIMIT && size < WORD_LIMIT
    ensures (TestRejects(address, end, size) <==> PassesEnd(address, end, size)) <==> address + size + 1 < WORD_LIMIT
    ensures !PassesEnd(address, end, size) ==> !TestRejects(address, end, size)
  {
    var sum := address + size + 1;
    if sum >= WORD_LIMIT {
      assert sum % WORD_LIMIT == sum - WORD_LIMIT <= address;
    }
  }

  /** The largest size passes the test at every address, although nothing is that long. */
  lemma LargestSizePasses(address: nat, end: nat)
    requires address <= end < WORD_LIMIT
    ensures !TestRejects(address, end, 0xFFFF_FFFF_FFFF_FFFF) && PassesEnd(address, end, 0xFFFF_FFFF_FFFF_FFFF)
  {
    BoundTestExactly(address, end, WORD_LIMIT - 1);
  }

  /** Over data placed at an address, reading a string succeeds in the model exactly when its stored size does not pass
      the end; then the computed test lets it through as well. */
  lemma ReadStringByAddress(base: nat, data: Bytes)
    requires |data| >= 8 && base + |data| < WORD_LIMIT
    ensures var size, address := ReadInt(data).value, base + 8;
      && (ReadString(data).Ok? <==> !PassesEnd(address, base + |data|, size))
      && (ReadString(data).Ok? ==> !TestRejects(address, base + |data|, size))
      && (address + size + 1 < WORD_LIMIT ==> (ReadString(data).Ok? <==> !TestRejects(address, base + |data|, size)))
  {
    hide FromLittleEndian;
    var size := ReadInt(data).value;
    if size < WORD_LIMIT { BoundTestExactly(base + 8, base + |data|, size); }
  }

  // ---------- Payload

  function Pack<L(!new)>(c: Locations<L>, bytecode: Bytes, ds: seq<Diag<L>>): Bytes {
    bytecode + EncodeList(c, ds) + Word(|bytecode|)
  }

  datatype Payload<L> = Payload(bytecode: Bytes, diagnostics: seq<Diag<L>>)

  /** The code reads a footer and steps over the bytecode without checking that either is there. */
  predicate FooterInRange(payload: Bytes) {
    |payload| >= 8 && FromLittleEndian(payload[|payload| - 8..]) <= |payload|
  }

  function Unpack<L(!new)>(c: Locations<L>, payload: Bytes): (r: Decoded<Payload<L>>)
    requires FooterInRange(payload)
  {
    var bytecodeSize := FromLittleEndian(payload[|payload| - 8..]);
    var (ds, rest) :- DecodeList(c, payload[bytecodeSize..]);
    Ok(Payload(payload[..bytecodeSize], ds), rest)
  }

  /** Unpacking a packed payload gives back bytecode and diagnostics and leaves only the footer unread. */
  lemma UnpackPack<L(!new)>(c: Locations<L>, bytecode: Bytes, ds: seq<Diag<L>>)
    requires c.Faithful() && EncodableList(c, ds) && |bytecode| < WORD_LIMIT
    ensures FooterInRange(Pack(c, bytecode, ds))
    ensures Unpack(c, Pack(c, bytecode, ds)) == Ok(Payload(bytecode, ds), Word(|bytecode|))
  {
    hide EncodeList, DecodeList, FromLittleEndian, Word;
    var payload, footer := Pack(c, bytecode, ds), Word(|bytecode|);
    assert payload[|payload| - 8..] == footer;
    WordRoundTrip(|bytecode|, []);
    assert footer + [] == footer && footer[..8] == footer;
    assert payload[..|bytecode|] == bytecode;
    assert payload[|bytecode|..] == EncodeList(c, ds) + footer;
    RoundTrip(c, ds, footer);
  }

  /** Any payload unpacks to exactly what it is made of: as many bytes as its footer says, then the bytes of the
      diagnostics, then what is left unread. */
  lemma UnpackExactly<L(!new)>(c: Locations<L>, payload: Bytes, bytecode: Bytes, ds: seq<Diag<L>>, rest: Bytes)
    requires FooterInRange(payload)
    ensures Unpack(c, payload) == Ok(Payload(bytecode, ds), rest) <==>
            && |bytecode| < WORD_LIMIT && payload[|payload| - 8..] == Word(|bytecode|)
            && exists b :: payload == bytecode + b + rest && ListText(c, b, ds)
    ensures var tail := payload[FromLittleEndian(payload[|payload| - 8..])..];
      Unpack(c, payload).Err? <==> DecodeList(c, tail).Err?
    ensures var tail := payload[FromLittleEndian(payload[|payload| - 8..])..];
      Unpack(c, payload).Err? ==> Unpack(c, payload) == Err(DecodeList(c, tail).error)
  {
    hide DecodeList, FromLittleEndian, Word, ListText;
    var footer := payload[|payload| - 8..];
    var n := FromLittleEndian(footer);
    var tail := payload[n..];
    assert footer[..8] == footer;
    IntSound(footer);
    DecodesExactly(c, tail, ds, rest);
    assert payload == payload[..n] + tail;
    if bytecode == payload[..n] {
      forall b ensures payload == bytecode + b + rest <==> tail == b + rest { SplitAt(payload, bytecode, b, rest); }
    }
    if |bytecode| < WORD_LIMIT && footer == Word(|bytecode|) {
      WordRoundTrip(|bytecode|, []);
      assert footer + [] == footer;
      forall b | payload == bytecode + b + rest ensures bytecode == payload[..n] { }
    }
  }

  lemma SplitAt(payload: Bytes, first: Bytes, b: Bytes, rest: Bytes)
    requires |first| <= |payload| && first == payload[..|first|]
    ensures payload == first + b + rest <==> payload[|first|..] == b + rest
  {
    assert first + b + rest == first + (b + rest);
    assert payload == first + payload[|first|..];
    if payload == first + b + rest { assert payload[|first|..] == b + rest; }
  }

  /** The bytecode comes first, so it keeps its alignment, and its size is the last eight bytes. */
  lemma PackLayout<L(!new)>(c: Locations<L>, bytecode: Bytes, ds: seq<Diag<L>>)
    ensures var p := Pack(c, bytecode, ds);
      && |p| >= |bytecode| + 8 && p[..|bytecode|] == bytecode && p[|p| - 8..] == Word(|bytecode|)
      && p[|bytecode|..|p| - 8] == EncodeList(c, ds)
  {
    hide EncodeList, Word;
  }

  /** A footer that points into itself, or to the very end, leaves nothing to decode. */
  lemma FooterTooLarge<L(!new)>(c: Locations<L>, payload: Bytes)
    requires |payload| >= 8
    requires |payload| - 8 < FromLittleEndian(payload[|payload| - 8..]) <= |payload|
    ensures FooterInRange(payload) && Unpack(c, payload) == Err(BadInt)
  {
    hide FromLittleEndian;
  }
}
