/** URL-safe base64 without padding, section 5 of RFC 4648, on top of a standard base64 coder. */
module Base64Url {
  import opened ByteStrings

  // ---------- Standard base64, section 4 of RFC 4648

  function Char64(i: int): (c: char)
    requires 0 <= i < 64
  {
    if i < 26 then ('A' as int + i) as char
    else if i < 52 then ('a' as int + (i - 26)) as char
    else if i < 62 then ('0' as int + (i - 52)) as char
    else if i == 62 then '+' else '/'
  }

  function Value64(c: char): (v: Option<int>)
    ensures v.Some? ==> 0 <= v.value < 64
  {
    if 'A' <= c <= 'Z' then Some(c as int - 'A' as int)
    else if 'a' <= c <= 'z' then Some(c as int - 'a' as int + 26)
    else if '0' <= c <= '9' then Some(c as int - '0' as int + 52)
    else if c == '+' then Some(62)
    else if c == '/' then Some(63)
    else None
  }

  /** Three bytes as four characters. */
  function Group(a: Byte, b: Byte, c: Byte): (s: string)
    ensures |s| == 4
  {
    [Char64(a / 4), Char64(a % 4 * 16 + b / 16), Char64(b % 16 * 4 + c / 64), Char64(c % 64)]
  }

  function EncodeBase64(b: Bytes): string {
    if |b| == 0 then ""
    else if |b| == 1 then Group(b[0], 0, 0)[..2] + "=="
    else if |b| == 2 then Group(b[0], b[1], 0)[..3] + "="
    else Group(b[0], b[1], b[2]) + EncodeBase64(b[3..])
  }

  /** A sextet, with the padding character standing for zero bits. */
  function Sextet(c: char): (v: int)
    requires Readable(c)
    ensures 0 <= v < 64
  {
    if c == '=' then 0 else Value64(c).value
  }

  predicate Readable(c: char) {
    c == '=' || Value64(c).Some?
  }

  /** Four characters as three bytes. */
  function DecodeGroup(c0: char, c1: char, c2: char, c3: char): (b: Bytes)
    requires Readable(c0) && Readable(c1) && Readable(c2) && Readable(c3)
    ensures |b| == 3
  {
    var w, x, y, z := Sextet(c0), Sextet(c1), Sextet(c2), Sextet(c3);
    [w * 4 + x / 16, x % 16 * 16 + y / 4, y % 4 * 64 + z]
  }

  /** A character the decoder rejects: not in the alphabet, or padding anywhere but at the very end. */
  predicate Illegal(s: string, i: nat)
    requires i < |s|
  {
    if s[i] == '=' then i + 2 < |s| || (i + 2 == |s| && s[i + 1] != '=')
    else Value64(s[i]).None?
  }

  predicate Decodable(s: string) {
    |s| % 4 == 0 && forall i :: 0 <= i < |s| ==> !Illegal(s, i)
  }

  lemma DecodableChars(s: string)
    requires Decodable(s)
    ensures forall i :: 0 <= i < |s| ==> Readable(s[i])
  {
    forall i | 0 <= i < |s| ensures Readable(s[i]) {
      assert !Illegal(s, i);
    }
  }

  function DecodeGroups(s: string): Bytes
    requires |s| % 4 == 0 && forall i :: 0 <= i < |s| ==> Readable(s[i])
  {
    if s == "" then [] else DecodeGroup(s[0], s[1], s[2], s[3]) + DecodeGroups(s[4..])
  }

  lemma {:induction false} DecodeGroupsLength(s: string)
    requires |s| % 4 == 0 && forall i :: 0 <= i < |s| ==> Readable(s[i])
    ensures |DecodeGroups(s)| == |s| / 4 * 3
  {
    if s == "" {
    } else {
      DecodeGroupsLength(s[4..]);
    }
  }

  /** Padding characters at the end of a decodable string. */
  function Padding(s: string): nat {
    if |s| >= 2 && s[|s| - 1] == '=' then (if s[|s| - 2] == '=' then 2 else 1) else 0
  }

  function DecodeBase64(s: string): Option<Bytes> {
    if !Decodable(s) then None
    else if s == "" then Some([])
    else
      DecodableChars(s);
      DecodeGroupsLength(s);
      var raw := DecodeGroups(s);
      Some(raw[..|raw| - Padding(s)])
  }

  // ---------- The URL-safe wrappers

  function Replaced(s: string, from: char, to: char): (r: string)
    ensures |r| == |s|
  {
    seq(|s|, i requires 0 <= i < |s| => if s[i] == from then to else s[i])
  }

  method ReplaceAll(s: string, from: char, to: char) returns (out: string)
    ensures out == Replaced(s, from, to)
  {
    out := s;
    for i := 0 to |s|
      invariant |out| == |s|
      invariant forall j :: 0 <= j < i ==> out[j] == if s[j] == from then to else s[j]
      invariant forall j :: i <= j < |s| ==> out[j] == s[j]
    {
      if out[i] == from {
        out := out[i := to];
      }
    }
  }

  /** What is left after removing up to n trailing padding characters. */
  function Unpadded(s: string, n: nat): string {
    if n == 0 || s == "" || s[|s| - 1] != '=' then s else Unpadded(s[..|s| - 1], n - 1)
  }

  function UrlSafe(b: Bytes): string {
    Unpadded(Replaced(Replaced(EncodeBase64(b), '+', '-'), '/', '_'), 3)
  }

  /** Encodes a non-empty string; the code looks at the last character without checking that there is one. */
  method EncodeUrlSafe(str: Bytes) returns (out: string)
    requires str != []
    ensures out == UrlSafe(str)
    ensures FromUrlSafe(out) == Some(str)
  {
    hide EncodeBase64, FromUrlSafe, Value64;
    out := EncodeBase64(str);
    EncodeShape(str);
    assert out[0] != '=' by { NotPadding(out[0]); }
    out := ReplaceAll(out, '+', '-');
    out := ReplaceAll(out, '/', '_');
    ghost var safe := out;
    var i := 0;
    while i < 3
      invariant i <= 3 && out != "" && out[0] != '='
      invariant Unpadded(out, 3 - i) == Unpadded(safe, 3)
    {
      if out[|out| - 1] != '=' {
        break;
      }
      out := out[..|out| - 1];
      i := i + 1;
    }
    RoundTrip(str);
  }

  lemma NotPadding(c: char)
    requires Value64(c).Some?
    ensures c != '='
  {
  }

  function Pad(n: nat): string {
    seq(n, _ => '=')
  }

  function FromUrlSafe(s: string): Option<Bytes> {
    var out := Replaced(Replaced(s, '-', '+'), '_', '/');
    var remainder := |s| % 4;
    DecodeBase64(if remainder != 0 then out + Pad(4 - remainder) else out)
  }

  method DecodeUrlSafe(str: string) returns (r: Option<Bytes>)
    ensures r == FromUrlSafe(str)
  {
    var out := ReplaceAll(str, '-', '+');
    out := ReplaceAll(out, '_', '/');
    var remainder := |str| % 4;
    if remainder != 0 {
      out := out + Pad(4 - remainder);
    }
    r := DecodeBase64(out);
  }

  // ---------- Round trip

  lemma Char64Inverse(i: int)
    requires 0 <= i < 64
    ensures Value64(Char64(i)) == Some(i) && Char64(i) != '=' && Char64(i) != '-' && Char64(i) != '_'
  {
  }

  function PadCount(n: nat): (p: nat)
    ensures p <= 2
  {
    (3 - n % 3) % 3
  }

  /** Length, alphabet and padding of the encoding of n bytes. */
  ghost predicate Shaped(e: string, n: nat) {
    var p := PadCount(n);
    && |e| == (n + p) / 3 * 4 && |e| % 4 == 0 && (n + p) % 3 == 0 && p <= |e|
    && (forall i :: 0 <= i < |e| - p ==> Value64(e[i]).Some?)
    && (forall i :: |e| - p <= i < |e| ==> e[i] == '=')
  }

  lemma ShapedGrows(g: string, e: string, n: nat)
    requires |g| == 4 && (forall i :: 0 <= i < 4 ==> Value64(g[i]).Some?) && Shaped(e, n)
    ensures Shaped(g + e, n + 3)
  {
    hide Value64;
    assert PadCount(n + 3) == PadCount(n);
    forall i | 0 <= i < |g + e| ensures (g + e)[i] == if i < 4 then g[i] else e[i - 4] {
    }
  }

  lemma {:induction false} EncodeShape(b: Bytes)
    ensures Shaped(EncodeBase64(b), |b|)
  {
    hide Group, Value64;
    if |b| >= 3 {
      EncodeShape(b[3..]);
      GroupChars(b[0], b[1], b[2]);
      hide Shaped;
      ShapedGrows(Group(b[0], b[1], b[2]), EncodeBase64(b[3..]), |b| - 3);
    } else if |b| > 0 {
      GroupChars(b[0], if |b| == 2 then b[1] else 0, 0);
    }
  }

  lemma GroupChars(a: Byte, b: Byte, c: Byte)
    ensures forall i :: 0 <= i < 4 ==> Value64(Group(a, b, c)[i]).Some?
  {
    hide Value64, Char64;
    Char64Inverse(a / 4);
    Char64Inverse(a % 4 * 16 + b / 16);
    Char64Inverse(b % 16 * 4 + c / 64);
    Char64Inverse(c % 64);
  }

  /** Decoding a group undoes encoding it; characters whose bits are zero may be padding. */
  lemma GroupRoundTrip(a: Byte, b: Byte, c: Byte)
    ensures var g := Group(a, b, c);
            && (forall i :: 0 <= i < 4 ==> Readable(g[i]))
            && DecodeGroup(g[0], g[1], g[2], g[3]) == [a, b, c]
            && (c == 0 ==> DecodeGroup(g[0], g[1], g[2], '=') == [a, b, c])
            && (b == c == 0 ==> DecodeGroup(g[0], g[1], '=', '=') == [a, b, c])
  {
    hide Value64, Char64;
    Char64Inverse(a / 4);
    Char64Inverse(a % 4 * 16 + b / 16);
    Char64Inverse(b % 16 * 4 + c / 64);
    Char64Inverse(c % 64);
  }

  function Zeros(n: nat): Bytes {
    seq(n, _ => 0)
  }

  /** Decoding the groups of an encoding gives the bytes, then a zero for each padding character. */
  lemma {:induction false} GroupsRoundTrip(b: Bytes)
    requires var e := EncodeBase64(b); |e| % 4 == 0 && forall i :: 0 <= i < |e| ==> Readable(e[i])
    ensures DecodeGroups(EncodeBase64(b)) == b + Zeros(PadCount(|b|))
  {
    hide Group, DecodeGroup, Readable;
    var e := EncodeBase64(b);
    if |b| >= 3 {
      GroupRoundTrip(b[0], b[1], b[2]);
      assert e[4..] == EncodeBase64(b[3..]);
      GroupsRoundTrip(b[3..]);
      assert [b[0], b[1], b[2]] + b[3..] == b;
    } else if |b| == 2 {
      GroupRoundTrip(b[0], b[1], 0);
      assert e[4..] == "";
    } else if |b| == 1 {
      GroupRoundTrip(b[0], 0, 0);
      assert e[4..] == "";
    }
  }

  lemma StandardRoundTrip(b: Bytes)
    requires b != []
    ensures DecodeBase64(EncodeBase64(b)) == Some(b)
  {
    hide EncodeBase64, DecodeGroups;
    var e, p := EncodeBase64(b), PadCount(|b|);
    EncodeShape(b);
    assert forall i :: 0 <= i < |e| - p ==> e[i] != '=';
    GroupsRoundTrip(b);
    assert Padding(e) == p;
    assert (b + Zeros(p))[..|b|] == b;
  }

  lemma {:induction false} UnpaddedStrips(s: string, p: nat, n: nat)
    requires p <= n && p <= |s| && (forall i :: |s| - p <= i < |s| ==> s[i] == '=')
    requires p < |s| ==> s[|s| - p - 1] != '='
    ensures Unpadded(s, n) == s[..|s| - p]
  {
    if p == 0 {
    } else {
      UnpaddedStrips(s[..|s| - 1], p - 1, n - 1);
      assert s[..|s| - 1][..|s| - p] == s[..|s| - p];
    }
  }

  /** The URL-safe form is the standard one without its padding, in the other alphabet. */
  lemma UrlSafeShape(b: Bytes)
    ensures var e, p := EncodeBase64(b), PadCount(|b|);
            p <= |e| && UrlSafe(b) == Replaced(Replaced(e[..|e| - p], '+', '-'), '/', '_')
  {
    hide EncodeBase64;
    var e, p := EncodeBase64(b), PadCount(|b|);
    EncodeShape(b);
    var safe := Replaced(Replaced(e, '+', '-'), '/', '_');
    UnpaddedStrips(safe, p, 3);
    assert safe[..|e| - p] == Replaced(Replaced(e[..|e| - p], '+', '-'), '/', '_');
  }

  /** Undoing the alphabet and restoring the padding gives back the standard encoding. */
  lemma Restored(b: Bytes)
    ensures var u := UrlSafe(b);
            Replaced(Replaced(u, '-', '+'), '_', '/') + Pad(if |u| % 4 == 0 then 0 else 4 - |u| % 4) == EncodeBase64(b)
  {
    hide EncodeBase64, UrlSafe, Value64, Replaced, PadCount;
    var e, p, u := EncodeBase64(b), PadCount(|b|), UrlSafe(b);
    EncodeShape(b);
    UrlSafeShape(b);
    AlphabetUndone(e[..|e| - p]);
    RestorePad(|e|, p);
    assert Pad(p) == e[|u|..];
    assert e[..|u|] + e[|u|..] == e;
  }

  lemma RestorePad(n: nat, p: nat)
    requires n % 4 == 0 && p <= 2 && p <= n
    ensures p == if (n - p) % 4 == 0 then 0 else 4 - (n - p) % 4
  {
  }

  /** Swapping '+' and '/' for '-' and '_' and back changes nothing in a standard encoding. */
  lemma AlphabetUndone(s: string)
    requires forall i :: 0 <= i < |s| ==> Value64(s[i]).Some?
    ensures Replaced(Replaced(Replaced(Replaced(s, '+', '-'), '/', '_'), '-', '+'), '_', '/') == s
  {
    var back := Replaced(Replaced(Replaced(Replaced(s, '+', '-'), '/', '_'), '-', '+'), '_', '/');
    assert forall i :: 0 <= i < |s| ==> back[i] == s[i];
  }

  /** Decoding undoes encoding, for every non-empty byte string. */
  lemma RoundTrip(b: Bytes)
    requires b != []
    ensures FromUrlSafe(UrlSafe(b)) == Some(b)
  {
    hide EncodeBase64, DecodeBase64, UrlSafe;
    Restored(b);
    StandardRoundTrip(b);
    var u := UrlSafe(b);
    assert Pad(0) == "";
    var back := Replaced(Replaced(u, '-', '+'), '_', '/');
    assert back + "" == back;
  }

  /** Different keys have different file names. */
  lemma Injective(a: Bytes, b: Bytes)
    requires a != [] && b != [] && UrlSafe(a) == UrlSafe(b)
    ensures a == b
  {
    RoundTrip(a);
    RoundTrip(b);
  }

  /** File names are non-empty and hold only letters, digits, '-' and '_'. */
  lemma FilenameSafe(b: Bytes)
    requires b != []
    ensures UrlSafe(b) != ""
    ensures forall c :: c in UrlSafe(b) ==>
              'A' <= c <= 'Z' || 'a' <= c <= 'z' || '0' <= c <= '9' || c == '-' || c == '_'
  {
    hide EncodeBase64, UrlSafe;
    EncodeShape(b);
    UrlSafeShape(b);
  }

  // ---------- The alphabet and the bits

  /** Table 1 of RFC 4648. */
  const ALPHABET: string := "ABCDEFGHIJKLM" + "NOPQRSTUVWXYZ" + "abcdefghijklm" + "nopqrstuvwxyz" + "0123456789" + "+/"

  /** Consecutive characters. */
  function Row(from: char, n: nat): (s: string)
    requires from as int + n < 128
    ensures |s| == n
  {
    if n == 0 then "" else Row(from, n - 1) + [(from as int + n - 1) as char]
  }

  lemma {:induction false} RowAt(from: char, n: nat, i: nat)
    requires from as int + n < 128 && i < n
    ensures Row(from, n)[i] == (from as int + i) as char
  {
    if i == n - 1 {
    } else {
      RowAt(from, n - 1, i);
    }
  }

  lemma RowIs(from: char, s: string)
    requires from as int + |s| < 128 && forall i :: 0 <= i < |s| ==> s[i] == (from as int + i) as char
    ensures Row(from, |s|) == s
  {
    hide Row;
    forall i | 0 <= i < |s| ensures Row(from, |s|)[i] == s[i] { RowAt(from, |s|, i); }
  }

  lemma UpperRows()
    ensures "ABCDEFGHIJKLM" == Row('A', 13) && "NOPQRSTUVWXYZ" == Row('N', 13)
  {
    hide Row;
    RowIs('A', "ABCDEFGHIJKLM");
    RowIs('N', "NOPQRSTUVWXYZ");
  }

  lemma LowerRows()
    ensures "abcdefghijklm" == Row('a', 13) && "nopqrstuvwxyz" == Row('n', 13)
  {
    hide Row;
    RowIs('a', "abcdefghijklm");
    RowIs('n', "nopqrstuvwxyz");
  }

  lemma AlphabetRows()
    ensures ALPHABET == Row('A', 13) + Row('N', 13) + Row('a', 13) + Row('n', 13) + Row('0', 10) + "+/"
  {
    hide Row;
    UpperRows();
    LowerRows();
    RowIs('0', "0123456789");
  }

  lemma CharInRows(a: string, b: string, c: string, d: string, e: string, i: nat)
    requires a == Row('A', 13) && b == Row('N', 13) && c == Row('a', 13) && d == Row('n', 13) && e == Row('0', 10)
    requires i < 64
    ensures (a + b + c + d + e + "+/")[i] == Char64(i)
  {
    hide Row;
    if i < 13 {
      RowAt('A', 13, i);
    } else if i < 26 {
      RowAt('N', 13, i - 13);
    } else if i < 39 {
      RowAt('a', 13, i - 26);
    } else if i < 52 {
      RowAt('n', 13, i - 39);
    } else if i < 62 {
      RowAt('0', 10, i - 52);
    }
  }

  lemma CharIsValue(i: nat, c: char)
    requires i < 64
    ensures Value64(c) == Some(i) <==> c == Char64(i)
  {
  }

  /** The characters are those of table 1 of RFC 4648, in its order, and reading a character inverts that table. */
  lemma AlphabetIs(i: nat, c: char)
    requires i < 64
    ensures |ALPHABET| == 64 && Char64(i) == ALPHABET[i]
    ensures Value64(c) == Some(i) <==> c == ALPHABET[i]
  {
    hide *;
    AlphabetRows();
    CharInRows(Row('A', 13), Row('N', 13), Row('a', 13), Row('n', 13), Row('0', 10), i);
    CharIsValue(i, c);
  }

  /** Four characters carry the bits of three bytes, the highest first. */
  lemma GroupIsNumber(a: Byte, b: Byte, c: Byte)
    ensures var g := Group(a, b, c);
      && (forall i :: 0 <= i < 4 ==> Value64(g[i]).Some?)
      && a * 65536 + b * 256 + c ==
         ((Value64(g[0]).value * 64 + Value64(g[1]).value) * 64 + Value64(g[2]).value) * 64 + Value64(g[3]).value
  {
    GroupChars(a, b, c);
    Char64Inverse(a / 4);
    Char64Inverse(a % 4 * 16 + b / 16);
    Char64Inverse(b % 16 * 4 + c / 64);
    Char64Inverse(c % 64);
  }

  // ---------- The text of an encoding

  /** Byte i of the input, followed by zeros. */
  function ByteAt(b: Bytes, i: nat): (v: int)
    ensures 0 <= v < 256
  {
    if i < |b| then b[i] else 0
  }

  /** Bits 6j to 6j + 5 of the input, the highest first; past its end they are zero. */
  function SixBits(b: Bytes, j: nat): (v: int)
    ensures 0 <= v < 64
  {
    var n := ByteAt(b, j / 4 * 3) * 65536 + ByteAt(b, j / 4 * 3 + 1) * 256 + ByteAt(b, j / 4 * 3 + 2);
    match j % 4
    case 0 => n / 262144
    case 1 => n / 4096 % 64
    case 2 => n / 64 % 64
    case _ => n % 64
  }

  lemma GroupAt(a: Byte, b: Byte, c: Byte, j: nat)
    requires j < 4
    ensures Group(a, b, c)[j] == Char64(SixBits([a, b, c], j))
  {
    assert j / 4 == 0 && j % 4 == j;
    assert ByteAt([a, b, c], 0) == a && ByteAt([a, b, c], 1) == b && ByteAt([a, b, c], 2) == c;
    hide Char64, ByteAt;
    SextetsOfNumber(a / 4, a % 4, b / 16, b % 16, c / 64, c % 64);
    assert a * 65536 + b * 256 + c ==
           (a / 4 * 4 + a % 4) * 65536 + (b / 16 * 16 + b % 16) * 256 + (c / 64 * 64 + c % 64);
  }

  lemma SextetsOfNumber(p: nat, q: nat, r: nat, s: nat, t: nat, u: nat)
    requires p < 64 && q < 4 && r < 16 && s < 16 && t < 4 && u < 64
    ensures var n := (p * 4 + q) * 65536 + (r * 16 + s) * 256 + (t * 64 + u);
      && n / 262144 == p && n / 4096 % 64 == q * 16 + r
      && n / 64 % 64 == s * 4 + t && n % 64 == u
  {
    var n := (p * 4 + q) * 65536 + (r * 16 + s) * 256 + (t * 64 + u);
    assert n / 64 == p * 4096 + (q * 16 + r) * 64 + (s * 4 + t);
    assert n / 4096 == p * 64 + (q * 16 + r);
  }

  lemma SixBitsAgree(a: Bytes, i: nat, b: Bytes, j: nat)
    requires i % 4 == j % 4 && ByteAt(a, i / 4 * 3) == ByteAt(b, j / 4 * 3)
    requires ByteAt(a, i / 4 * 3 + 1) == ByteAt(b, j / 4 * 3 + 1)
    requires ByteAt(a, i / 4 * 3 + 2) == ByteAt(b, j / 4 * 3 + 2)
    ensures SixBits(a, i) == SixBits(b, j)
  {
    hide ByteAt;
  }

  lemma {:induction false} EncodedAt(b: Bytes, j: nat)
    requires j < |EncodeBase64(b)| - PadCount(|b|)
    ensures EncodeBase64(b)[j] == Char64(SixBits(b, j))
  {
    hide Group, Char64, SixBits;
    if |b| >= 3 && j >= 4 {
      assert PadCount(|b[3..]|) == PadCount(|b|);
      EncodedAt(b[3..], j - 4);
      assert (j - 4) / 4 == j / 4 - 1;
      SixBitsAgree(b[3..], j - 4, b, j);
    } else {
      var x, y, z := b[0], if |b| > 1 then b[1] else 0, if |b| > 2 then b[2] else 0;
      GroupAt(x, y, z, j);
      SixBitsAgree([x, y, z], j, b, j);
    }
  }

  /** The table of section 5 of RFC 4648: table 1 with other characters for 62 and 63. */
  function UrlChar(v: int): char
    requires 0 <= v < 64 && |ALPHABET| == 64
  {
    if v == 62 then '-' else if v == 63 then '_' else ALPHABET[v]
  }

  lemma ReplacedChar(v: int)
    requires 0 <= v < 64
    ensures |ALPHABET| == 64
    ensures Replaced(Replaced([Char64(v)], '+', '-'), '/', '_')[0] == UrlChar(v)
  {
    hide ALPHABET;
    AlphabetIs(v, 'A');
  }

  /** The whole text: one character for each six bits of the input begun, the last ones filled up with zeros. */
  lemma UrlSafeIs(b: Bytes, j: nat)
    ensures |ALPHABET| == 64
    ensures |UrlSafe(b)| == (4 * |b| + 2) / 3
    ensures j < |UrlSafe(b)| ==> UrlSafe(b)[j] == UrlChar(SixBits(b, j))
  {
    hide EncodeBase64, UrlSafe, Char64, SixBits, UrlChar, ALPHABET;
    EncodeShape(b);
    UrlSafeShape(b);
    ReplacedChar(0);
    if j < |UrlSafe(b)| {
      EncodedAt(b, j);
      ReplacedChar(SixBits(b, j));
    }
  }

  // ---------- Which texts decode

  /** The number of padding characters at the end. */
  function Pads(s: string): nat {
    if s != "" && s[|s| - 1] == '=' then 1 + Pads(s[..|s| - 1]) else 0
  }

  lemma {:induction false} PadsAre(s: string)
    ensures Pads(s) <= |s| && (Pads(s) < |s| ==> s[|s| - Pads(s) - 1] != '=')
    ensures forall i :: |s| - Pads(s) <= i < |s| ==> s[i] == '='
  {
    if s == "" || s[|s| - 1] != '=' {
    } else {
      var init := s[..|s| - 1];
      PadsAre(init);
      assert forall i :: 0 <= i < |init| ==> s[i] == init[i];
    }
  }

  lemma PadsUnique(s: string, t: nat)
    requires t <= |s| && (t < |s| ==> s[|s| - t - 1] != '=') && forall i :: |s| - t <= i < |s| ==> s[i] == '='
    ensures Pads(s) == t
  {
    hide Pads;
    PadsAre(s);
    var p := Pads(s);
    assert p < |s| ==> s[|s| - p - 1] != '=';
    assert t < |s| ==> s[|s| - t - 1] != '=';
  }

  /** The standard decoder takes whole groups of alphabet characters with at most two padding characters at the end. */
  lemma StandardAccepts(s: string)
    ensures Decodable(s) <==>
            |s| % 4 == 0 && Pads(s) <= 2 && forall i :: 0 <= i < |s| - Pads(s) ==> Value64(s[i]).Some?
  {
    hide Value64, Pads;
    PadsAre(s);
    var p := Pads(s);
    if Decodable(s) {
      if |s| >= 3 { assert !Illegal(s, |s| - 3); }
      forall i | 0 <= i < |s| - p ensures Value64(s[i]).Some? { assert !Illegal(s, i); }
    }
    if |s| % 4 == 0 && p <= 2 && forall i :: 0 <= i < |s| - p ==> Value64(s[i]).Some? {
      forall i | 0 <= i < |s| ensures !Illegal(s, i) { NotPaddingHere(s, p, i); }
    }
  }

  lemma NotPaddingHere(s: string, p: nat, i: nat)
    requires i < |s| && p <= 2 && p <= |s| && (i < |s| - p ==> Value64(s[i]).Some?)
    requires forall j :: |s| - p <= j < |s| ==> s[j] == '='
    ensures !Illegal(s, i)
  {
    if i < |s| - p { NotPadding(s[i]); }
  }

  /** A character of either alphabet. */
  predicate Known(c: char) {
    'A' <= c <= 'Z' || 'a' <= c <= 'z' || '0' <= c <= '9' || c == '-' || c == '_' || c == '+' || c == '/'
  }

  /** How many padding characters are added to a text of length n. */
  function Added(n: nat): nat {
    if n % 4 == 0 then 0 else 4 - n % 4
  }

  /** The text handed to the standard decoder. */
  function Standardised(s: string): (r: string)
    ensures |r| == |s| + Added(|s|)
  {
    Replaced(Replaced(s, '-', '+'), '_', '/') + Pad(Added(|s|))
  }

  lemma StandardisedChars(s: string)
    ensures forall i :: 0 <= i < |s| ==>
      && (Standardised(s)[i] == '=' <==> s[i] == '=')
      && (Value64(Standardised(s)[i]).Some? <==> Known(s[i]))
    ensures forall i :: |s| <= i < |Standardised(s)| ==> Standardised(s)[i] == '='
  {
  }

  lemma StandardisedPads(s: string)
    ensures Pads(Standardised(s)) == Pads(s) + Added(|s|)
  {
    hide Value64, Pads;
    PadsAre(s);
    StandardisedChars(s);
    hide Standardised, Known;
    var r, t := Standardised(s), Pads(s) + Added(|s|);
    PadsUnique(r, t);
  }

  /** A text decodes if and only if its padding, typed and added, is at most two characters, all at the end, and every
      other character is of either alphabet. */
  lemma DecodesExactly(s: string)
    ensures FromUrlSafe(s).Some? <==>
            Pads(s) + Added(|s|) <= 2 && forall i :: 0 <= i < |s| - Pads(s) ==> Known(s[i])
  {
    hide Value64, Known, Pads, Decodable, Standardised, FromUrlSafe;
    var r := Standardised(s);
    HandsOver(s);
    StandardisedChars(s);
    StandardisedPads(s);
    StandardAccepts(r);
    PadsAre(s);
    assert |r| - Pads(r) == |s| - Pads(s);
  }

  lemma HandsOver(s: string)
    ensures FromUrlSafe(s) == DecodeBase64(Standardised(s))
  {
    hide DecodeBase64, Replaced;
    var out := Replaced(Replaced(s, '-', '+'), '_', '/');
    assert out + Pad(0) == out;
  }

  // ---------- Which bytes a text decodes to

  /** The six bits at position j of a text in either alphabet; padding, typed or added, is zero bits. */
  function BitsAt(s: string, j: nat): (v: int)
    ensures 0 <= v < 64
  {
    if j >= |s| then 0
    else if s[j] == '-' then 62
    else if s[j] == '_' then 63
    else if Value64(s[j]).Some? then Value64(s[j]).value
    else 0
  }

  /** Four positions as one number of 24 bits, the first highest. */
  function BitsOfGroup(s: string, g: nat): int {
    ((BitsAt(s, 4 * g) * 64 + BitsAt(s, 4 * g + 1)) * 64 + BitsAt(s, 4 * g + 2)) * 64 + BitsAt(s, 4 * g + 3)
  }

  /** The three bytes of a decoded group are its 24 bits, the highest first. */
  lemma DecodedGroupIsNumber(c0: char, c1: char, c2: char, c3: char)
    requires Readable(c0) && Readable(c1) && Readable(c2) && Readable(c3)
    ensures var d := DecodeGroup(c0, c1, c2, c3);
      var a: int, b: int, c: int := d[0], d[1], d[2];
      a * 65536 + b * 256 + c == ((Sextet(c0) * 64 + Sextet(c1)) * 64 + Sextet(c2)) * 64 + Sextet(c3)
  {
    hide Value64, Sextet;
  }

  lemma {:induction false} GroupInPlace(s: string, g: nat)
    requires |s| % 4 == 0 && (forall i :: 0 <= i < |s| ==> Readable(s[i])) && 4 * g < |s|
    ensures |DecodeGroups(s)| == |s| / 4 * 3 && 4 * g + 4 <= |s|
    ensures DecodeGroups(s)[3 * g..3 * g + 3] == DecodeGroup(s[4 * g], s[4 * g + 1], s[4 * g + 2], s[4 * g + 3])
  {
    hide Readable, DecodeGroup;
    DecodeGroupsLength(s);
    if g == 0 {
    } else {
      GroupInPlace(s[4..], g - 1);
      LaterSlice(DecodeGroup(s[0], s[1], s[2], s[3]), DecodeGroups(s[4..]), 3 * (g - 1));
    }
  }

  lemma LaterSlice(first: Bytes, rest: Bytes, i: nat)
    requires |first| == 3 && i + 3 <= |rest|
    ensures (first + rest)[i + 3..i + 6] == rest[i..i + 3]
  {
  }

  lemma SextetIsBits(s: string, j: nat)
    requires j < |Standardised(s)| && Readable(Standardised(s)[j])
    ensures Sextet(Standardised(s)[j]) == BitsAt(s, j)
  {
  }

  lemma PaddingIsPads(s: string)
    requires |s| % 4 == 0 && Pads(s) <= 2
    ensures Padding(s) == Pads(s)
  {
    hide Pads;
    PadsAre(s);
    var p := Pads(s);
    assert p < |s| ==> s[|s| - p - 1] != '=';
    assert forall i :: |s| - p <= i < |s| ==> s[i] == '=';
  }

  /** The bytes of every text that decodes: three for four characters, less one for each padding character, typed or
      added; and each group of four gives, as far as they go, the three bytes of its 24 bits. */
  lemma DecodesTo(s: string, i: nat)
    requires FromUrlSafe(s).Some?
    ensures var b := FromUrlSafe(s).value;
      && |b| == (|s| + Added(|s|)) / 4 * 3 - Pads(s) - Added(|s|)
      && (i < |b| ==> b[i] == (match i % 3 case 0 => BitsOfGroup(s, i / 3) / 65536
                                            case 1 => BitsOfGroup(s, i / 3) / 256 % 256
                                            case _ => BitsOfGroup(s, i / 3) % 256))
  {
    hide Value64, Pads, Decodable, Standardised, FromUrlSafe, DecodeGroups, Sextet, Readable, BitsAt, DecodeGroup;
    var r := Standardised(s);
    HandsOver(s);
    StandardAccepts(r);
    StandardisedPads(s);
    PaddingIsPads(r);
    DecodableChars(r);
    DecodeGroupsLength(r);
    var b := FromUrlSafe(s).value;
    if i < |b| {
      var g := i / 3;
      GroupInPlace(r, g);
      ByteOfGroup(s, r, g, i % 3);
      assert b[i] == DecodeGroups(r)[3 * g..3 * g + 3][i % 3];
    }
  }

  lemma ByteOfGroup(s: string, r: string, g: nat, k: nat)
    requires r == Standardised(s) && 4 * g + 4 <= |r| && k < 3 && forall i :: 0 <= i < |r| ==> Readable(r[i])
    ensures var d, n := DecodeGroup(r[4 * g], r[4 * g + 1], r[4 * g + 2], r[4 * g + 3]), BitsOfGroup(s, g);
      d[k] == match k case 0 => n / 65536 case 1 => n / 256 % 256 case _ => n % 256
  {
    hide Value64, Standardised, Readable, Sextet, BitsAt;
    DecodedGroupIsNumber(r[4 * g], r[4 * g + 1], r[4 * g + 2], r[4 * g + 3]);
    SextetIsBits(s, 4 * g);
    SextetIsBits(s, 4 * g + 1);
    SextetIsBits(s, 4 * g + 2);
    SextetIsBits(s, 4 * g + 3);
    var d := DecodeGroup(r[4 * g], r[4 * g + 1], r[4 * g + 2], r[4 * g + 3]);
    BytesOfNumber(d[0], d[1], d[2]);
  }

  lemma BytesOfNumber(a: Byte, b: Byte, c: Byte)
    ensures var n := a * 65536 + b * 256 + c;
      n / 65536 == a && n / 256 % 256 == b && n % 256 == c
  {
  }
}
