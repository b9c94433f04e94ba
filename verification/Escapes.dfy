/**
 The escape variants (go/escape.go): for every variant, reading back what was escaped gives
 the text again.
 */
module Escapes {
  import opened Options
  import opened Coding
  import opened Numerals
  import opened Utf8

  // ----- C and JSON, in either quote

  function HexLower(k: int): char
    requires 0 <= k < 16
  {
    if k < 10 then '0' + k as char else 'a' + (k - 10) as char
  }

  /** hex4, at `at` of s; -1 for no four digits. */
  function Hex4(s: string, at: nat): (v: int)
    ensures -1 <= v < 0x10000
  {
    if |s| < at + 4 then -1
    else
      var a, b, c, d := HexValue(s[at]), HexValue(s[at + 1]), HexValue(s[at + 2]), HexValue(s[at + 3]);
      if a < 0 || b < 0 || c < 0 || d < 0 then -1 else ((a * 16 + b) * 16 + c) * 16 + d
  }

  function Unicode4(n: int): string
    requires 0 <= n < 0x10000
  {
    "\\u" + [HexLower(n / 4096), HexLower(n / 256 % 16), HexLower(n / 16 % 16), HexLower(n % 16)]
  }

  /** escC's one character. */
  function OneC(quote: char, c: char): string {
    if c == '\\' then "\\\\"
    else if c == quote then ['\\', quote]
    else if c == '\n' then "\\n"
    else if c == '\r' then "\\r"
    else if c == '\t' then "\\t"
    else if c == 8 as char then "\\b"
    else if c == 12 as char then "\\f"
    else if (c as int) < 0x20 then Unicode4(c as int)
    else [c]
  }

  /** The scalar value of a surrogate pair. */
  function Paired(hi: int, lo: int): char
    requires 0xD800 <= hi < 0xDC00 && 0xDC00 <= lo < 0xE000
  {
    ((hi - 0xD800) * 0x400 + (lo - 0xDC00) + 0x10000) as char
  }

  /** unescC's next character. */
  function TakeC(quote: char, s: string): Option<Taken<char>> {
    if s == "" then None
    else if s[0] != '\\' then Some(Taken(s[0], 1))
    else if |s| < 2 then None
    else if s[1] == '\\' then Some(Taken('\\', 2))
    else if s[1] == quote then Some(Taken(quote, 2))
    else if s[1] == 'n' then Some(Taken('\n', 2))
    else if s[1] == 'r' then Some(Taken('\r', 2))
    else if s[1] == 't' then Some(Taken('\t', 2))
    else if s[1] == 'b' then Some(Taken(8 as char, 2))
    else if s[1] == 'f' then Some(Taken(12 as char, 2))
    else if s[1] != 'u' then None
    else
      var hi := Hex4(s, 2);
      if hi < 0 || 0xDC00 <= hi <= 0xDFFF then None
      else if 0xD800 <= hi <= 0xDBFF then
        if |s| < 8 || s[6] != '\\' || s[7] != 'u' then None
        else
          var lo := Hex4(s, 8);
          if lo < 0xDC00 || 0xDFFF < lo then None else Some(Taken(Paired(hi, lo), 12))
      else Some(Taken(hi as char, 6))
  }

  lemma HexBack(k: int)
    requires 0 <= k < 16
    ensures HexValue(HexLower(k)) == k && HexValue(HexUpper(k)) == k
  {
  }

  lemma Nibbles(n: int)
    requires 0 <= n < 0x10000
    ensures ((n / 4096 * 16 + n / 256 % 16) * 16 + n / 16 % 16) * 16 + n % 16 == n
  {
    var a, b := n / 16, n / 16 / 16;
    assert n == a * 16 + n % 16 && a == b * 16 + a % 16;
    assert n / 256 == b && n / 4096 == b / 16;
    assert b == b / 16 * 16 + b % 16;
  }

  /** Four digits written at a place read back. */
  lemma Hex4Back(before: string, n: int, rest: string)
    requires 0 <= n < 0x10000
    ensures Hex4(before + Unicode4(n) + rest, |before| + 2) == n
  {
    var s, at := before + Unicode4(n) + rest, |before| + 2;
    HexBack(n / 4096);
    HexBack(n / 256 % 16);
    HexBack(n / 16 % 16);
    HexBack(n % 16);
    Nibbles(n);
    assert s[at] == HexLower(n / 4096) && s[at + 1] == HexLower(n / 256 % 16);
    assert s[at + 2] == HexLower(n / 16 % 16) && s[at + 3] == HexLower(n % 16);
  }

  /** A quote the conventions use: none of the letters an escape is known by. */
  predicate Quote(quote: char) {
    quote == '"' || quote == '\''
  }

  lemma CTaken(quote: char, c: char, rest: string)
    requires Quote(quote)
    ensures OneC(quote, c) != "" && TakeC(quote, OneC(quote, c) + rest) == Some(Taken(c, |OneC(quote, c)|))
  {
    hide Unicode4, Hex4;
    var s := OneC(quote, c) + rest;
    if OneC(quote, c) == [c] {
      assert s[0] == c;
    } else if (c as int) < 0x20 && c !in "\n\r\t" && c != 8 as char && c != 12 as char {
      UnicodeShape(c as int);
      Hex4Back("", c as int, rest);
      assert "" + Unicode4(c as int) + rest == s;
      assert s[0] == '\\' && s[1] == 'u';
    } else {
      assert s[0] == '\\' && s[1] == OneC(quote, c)[1];
    }
  }

  lemma UnicodeShape(n: int)
    requires 0 <= n < 0x10000
    ensures |Unicode4(n)| == 6 && Unicode4(n)[0] == '\\' && Unicode4(n)[1] == 'u'
  {
  }

  /** A character outside the basic plane, written as its surrogate pair (section 7 of RFC 8259),
      is read as itself. */
  lemma PairTaken(quote: char, c: char, rest: string)
    requires Quote(quote) && 0x10000 <= c as int
    ensures var n := c as int - 0x10000;
            TakeC(quote, Unicode4(0xD800 + n / 0x400) + Unicode4(0xDC00 + n % 0x400) + rest) == Some(Taken(c, 12))
  {
    hide Unicode4, Hex4;
    var n := c as int - 0x10000;
    var hi, lo := 0xD800 + n / 0x400, 0xDC00 + n % 0x400;
    var s := Unicode4(hi) + Unicode4(lo) + rest;
    UnicodeShape(hi);
    UnicodeShape(lo);
    Hex4Back("", hi, Unicode4(lo) + rest);
    assert "" + Unicode4(hi) + (Unicode4(lo) + rest) == s;
    Hex4Back(Unicode4(hi), lo, rest);
    assert s[0] == '\\' && s[1] == 'u' && s[6] == '\\' && s[7] == 'u';
  }

  /** Half a pair is refused, whatever follows that is not the other half. */
  lemma LoneRefused(quote: char, n: int, rest: string)
    requires Quote(quote) && 0xD800 <= n < 0xE000
    requires |rest| < 2 || rest[0] != '\\' || rest[1] != 'u' || Hex4(rest, 2) < 0xDC00 || 0xDFFF < Hex4(rest, 2) || 0xDC00 <= n
    ensures TakeC(quote, Unicode4(n) + rest) == None
  {
    hide Unicode4;
    var s := Unicode4(n) + rest;
    UnicodeShape(n);
    Hex4Back("", n, rest);
    assert "" + Unicode4(n) + rest == s;
    assert s[0] == '\\' && s[1] == 'u';
    assert forall i :: 0 <= i < |rest| ==> s[6 + i] == rest[i];
    assert Hex4(s, 8) == Hex4(rest, 2);
  }

  // ----- SQL and shell

  function OneSql(c: char): string {
    if c == '\'' then "''" else [c]
  }

  function TakeSql(s: string): Option<Taken<char>> {
    if s == "" then None
    else if s[0] != '\'' then Some(Taken(s[0], 1))
    else if |s| <= 1 || s[1] != '\'' then None
    else Some(Taken('\'', 2))
  }

  lemma SqlTaken(c: char, rest: string)
    ensures OneSql(c) != "" && TakeSql(OneSql(c) + rest) == Some(Taken(c, |OneSql(c)|))
  {
  }

  function OneShell(c: char): string {
    if c == '\'' then "'\\''" else [c]
  }

  function TakeShell(s: string): Option<Taken<char>> {
    if s == "" then None
    else if s[0] != '\'' then Some(Taken(s[0], 1))
    else if |s| <= 3 || s[1] != '\\' || s[2] != '\'' || s[3] != '\'' then None
    else Some(Taken('\'', 4))
  }

  lemma ShellTaken(c: char, rest: string)
    ensures OneShell(c) != "" && TakeShell(OneShell(c) + rest) == Some(Taken(c, |OneShell(c)|))
  {
  }

  // ----- XML

  const ENTITIES: seq<(char, string)> := [('&', "&amp;"), ('<', "&lt;"), ('>', "&gt;"), ('"', "&quot;"), ('\'', "&apos;")]

  function EntityOf(entities: seq<(char, string)>, c: char): string {
    if entities == [] then "" else if entities[0].0 == c then entities[0].1 else EntityOf(entities[1..], c)
  }

  function OneXml(c: char): string {
    var ent := EntityOf(ENTITIES, c);
    if ent == "" then [c] else ent
  }

  function TakeEntity(entities: seq<(char, string)>, s: string): Option<Taken<char>> {
    if entities == [] then None
    else if entities[0].1 <= s then Some(Taken(entities[0].0, |entities[0].1|))
    else TakeEntity(entities[1..], s)
  }

  function TakeXml(s: string): Option<Taken<char>> {
    if s == "" then None else if s[0] != '&' then Some(Taken(s[0], 1)) else TakeEntity(ENTITIES, s)
  }

  lemma EntityTaken(entities: seq<(char, string)>, k: nat, rest: string)
    requires k < |entities|
    requires forall i, j :: 0 <= i < |entities| && 0 <= j < |entities| && i != j ==> Differ(entities[i].1, entities[j].1)
    ensures TakeEntity(entities, entities[k].1 + rest) == Some(Taken(entities[k].0, |entities[k].1|))
  {
    if 0 < k {
      DifferPrefix(entities[k].1, entities[0].1, rest);
      assert forall i :: 0 <= i < |entities[1..]| ==> entities[1..][i] == entities[i + 1];
      EntityTaken(entities[1..], k - 1, rest);
    }
  }

  /** Neither text begins with the other. */
  predicate Differ(a: string, b: string) {
    exists i :: 0 <= i < |a| && i < |b| && a[i] != b[i]
  }

  lemma DifferPrefix(a: string, b: string, rest: string)
    requires Differ(a, b)
    ensures !(b <= a + rest)
  {
    var i :| 0 <= i < |a| && i < |b| && a[i] != b[i];
    assert (a + rest)[i] == a[i];
  }

  lemma DiffersAt(a: string, b: string, i: nat)
    requires i < |a| && i < |b| && a[i] != b[i]
    ensures Differ(a, b) && Differ(b, a)
  {
  }

  /** The entities are prefix-free. */
  lemma EntitiesDiffer()
    ensures forall i, j :: 0 <= i < 5 && 0 <= j < 5 && i != j ==> Differ(ENTITIES[i].1, ENTITIES[j].1)
  {
    DiffersAt("&amp;", "&lt;", 1);
    DiffersAt("&amp;", "&gt;", 1);
    DiffersAt("&amp;", "&quot;", 1);
    DiffersAt("&amp;", "&apos;", 2);
    DiffersAt("&lt;", "&gt;", 1);
    DiffersAt("&lt;", "&quot;", 1);
    DiffersAt("&lt;", "&apos;", 1);
    DiffersAt("&gt;", "&quot;", 1);
    DiffersAt("&gt;", "&apos;", 1);
    DiffersAt("&quot;", "&apos;", 1);
  }

  lemma {:induction false} EntityAt(entities: seq<(char, string)>, k: nat, c: char)
    requires k <= |entities| && (forall i :: 0 <= i < k ==> entities[i].0 != c) && (k < |entities| ==> entities[k].0 == c)
    ensures EntityOf(entities, c) == if k == |entities| then "" else entities[k].1
  {
    if 0 < k {
      assert forall i :: 0 <= i < |entities[1..]| ==> entities[1..][i] == entities[i + 1];
      EntityAt(entities[1..], k - 1, c);
    }
  }

  lemma EntityIs(c: char)
    ensures OneXml(c) == if c == '&' then "&amp;" else if c == '<' then "&lt;" else if c == '>' then "&gt;"
                         else if c == '"' then "&quot;" else if c == '\'' then "&apos;" else [c]
  {
    hide EntityOf;
    var k := if c == '&' then 0 else if c == '<' then 1 else if c == '>' then 2 else if c == '"' then 3 else if c == '\'' then 4 else 5;
    EntityAt(ENTITIES, k, c);
  }

  lemma XmlTaken(c: char, rest: string)
    ensures OneXml(c) != "" && TakeXml(OneXml(c) + rest) == Some(Taken(c, |OneXml(c)|))
  {
    hide TakeEntity, OneXml, Differ;
    EntityIs(c);
    EntitiesDiffer();
    if c == '&' { EntityTaken(ENTITIES, 0, rest); }
    else if c == '<' { EntityTaken(ENTITIES, 1, rest); }
    else if c == '>' { EntityTaken(ENTITIES, 2, rest); }
    else if c == '"' { EntityTaken(ENTITIES, 3, rest); }
    else if c == '\'' { EntityTaken(ENTITIES, 4, rest); }
    assert (OneXml(c) + rest)[0] == OneXml(c)[0];
  }

  // ----- regular expressions

  const REGEX_PUNCT := "\\.+*?()[]{}|^$/"

  function OneRegex(c: char): string {
    if c in REGEX_PUNCT then ['\\', c] else [c]
  }

  function TakeRegex(s: string): Option<Taken<char>> {
    if s == "" then None
    else if s[0] != '\\' then Some(Taken(s[0], 1))
    else if |s| <= 1 || s[1] !in REGEX_PUNCT then None
    else Some(Taken(s[1], 2))
  }

  lemma RegexTaken(c: char, rest: string)
    ensures OneRegex(c) != "" && TakeRegex(OneRegex(c) + rest) == Some(Taken(c, |OneRegex(c)|))
  {
    assert REGEX_PUNCT[0] == '\\' && REGEX_PUNCT[0] in REGEX_PUNCT;
    var s := OneRegex(c) + rest;
    if c in REGEX_PUNCT {
      assert s == ['\\', c] + rest && s[0] == '\\' && s[1] == c;
    } else {
      assert c != '\\' && s[0] == c;
    }
  }

  // ----- percent encoding, byte by byte

  predicate Unreserved(b: Byte) {
    || 'A' as int <= b <= 'Z' as int || 'a' as int <= b <= 'z' as int || '0' as int <= b <= '9' as int
    || b == '-' as int || b == '.' as int || b == '_' as int || b == '~' as int
  }

  function OneUri(b: Byte): string {
    if Unreserved(b) then [b as char] else ['%', HexUpper(b / 16), HexUpper(b % 16)]
  }

  /** unescUri's next byte, of a text as its bytes. */
  function TakeUri(s: seq<Byte>): Option<Taken<Byte>> {
    if |s| == 0 then None
    else if s[0] != '%' as int then Some(Taken(s[0], 1))
    else if |s| <= 2 then None
    else
      var hi, lo := HexValue(s[1] as char), HexValue(s[2] as char);
      if hi < 0 || lo < 0 then None else Some(Taken(hi * 16 + lo, 3))
  }

  /** OneUri's bytes: it writes characters of one byte. */
  function OneUriBytes(b: Byte): seq<Byte> {
    Encoding(OneUri(b))
  }

  lemma OneByte(c: char)
    requires (c as int) < 0x80
    ensures Bytes(c) == [c as int]
  {
  }

  lemma {:induction false} AsciiBytes(s: string)
    requires forall i :: 0 <= i < |s| ==> (s[i] as int) < 0x80
    ensures |Encoding(s)| == |s| && forall i :: 0 <= i < |s| ==> Encoding(s)[i] == s[i] as int
  {
    if s != "" {
      OneByte(s[0]);
      AsciiBytes(s[1..]);
      var e := Encoding(s);
      assert e == [s[0] as int] + Encoding(s[1..]);
      forall i | 0 <= i < |s| ensures e[i] == s[i] as int {
        if 0 < i { assert e[i] == Encoding(s[1..])[i - 1] && s[1..][i - 1] == s[i]; }
      }
    }
  }

  lemma UriTaken(b: Byte, rest: seq<Byte>)
    ensures OneUriBytes(b) != [] && TakeUri(OneUriBytes(b) + rest) == Some(Taken(b, |OneUriBytes(b)|))
  {
    hide Encoding;
    AsciiBytes(OneUri(b));
    var s := OneUriBytes(b) + rest;
    assert s[0] == OneUriBytes(b)[0];
    if !Unreserved(b) {
      HexBack(b / 16);
      HexBack(b % 16);
      assert s[1] as char == HexUpper(b / 16) && s[2] as char == HexUpper(b % 16);
      assert b / 16 * 16 + b % 16 == b;
    }
  }

  /** The bytes of what escUri writes are written byte by byte too. */
  lemma {:induction false} UriBytes(bs: seq<Byte>)
    ensures Encoding(Encoded(OneUri, bs)) == Encoded(OneUriBytes, bs)
  {
    hide OneUri;
    if bs != [] {
      UriBytes(bs[1..]);
      EncodedAppend(Bytes, OneUri(bs[0]), Encoded(OneUri, bs[1..]));
    }
  }

  // ----- the two entry points

  function EscapeUri(s: string): string {
    Encoded(OneUri, Encoding(s))
  }

  function UnescapeUri(s: string): Option<string> {
    var bytes := Decoded(TakeUri, Encoding(s));
    if bytes.None? then None else Decoding(bytes.value)
  }

  function OneOf(variant: string): char -> string {
    if variant == "sq" then c => OneC('\'', c)
    else if variant == "sql" then OneSql
    else if variant == "shell" then OneShell
    else if variant == "xml" then OneXml
    else if variant == "regex" then OneRegex
    else c => OneC('"', c)
  }

  function TakeOf(variant: string): string -> Option<Taken<char>> {
    if variant == "sq" then s => TakeC('\'', s)
    else if variant == "sql" then TakeSql
    else if variant == "shell" then TakeShell
    else if variant == "xml" then TakeXml
    else if variant == "regex" then TakeRegex
    else s => TakeC('"', s)
  }

  /** escapeText. */
  function Escape(s: string, variant: string): string {
    if variant == "uri" then EscapeUri(s) else Encoded(OneOf(variant), s)
  }

  /** unescapeText. */
  function Unescape(s: string, variant: string): Option<string> {
    if variant == "uri" then UnescapeUri(s) else Decoded(TakeOf(variant), s)
  }

  method EscapeText(s: string, variant: string) returns (out: string)
    ensures out == Escape(s, variant)
  {
    if variant == "uri" {
      var bytes := Encode(Bytes, s);
      out := Encode(OneUri, bytes);
    } else {
      out := Encode(OneOf(variant), s);
    }
  }

  method UnescapeText(s: string, variant: string) returns (back: Option<string>)
    ensures back == Unescape(s, variant)
  {
    if variant == "uri" {
      var source := Encode(Bytes, s);
      var bytes := Decode(TakeUri, source);
      if bytes.None? { return None; }
      back := Decode(TakeChar, bytes.value);
    } else {
      back := Decode(TakeOf(variant), s);
    }
  }

  lemma UriTakesBack()
    ensures TakesBack(OneUriBytes, TakeUri)
  {
    hide TakeUri, Unreserved;
    var one: Byte -> seq<Byte>, take: seq<Byte> -> Option<Taken<Byte>> := OneUriBytes, TakeUri;
    assert forall b: Byte :: one(b) == OneUriBytes(b);
    assert forall s: seq<Byte> :: take(s) == TakeUri(s);
    forall b: Byte, rest: seq<Byte> ensures one(b) != [] && take(one(b) + rest) == Some(Taken(b, |one(b)|)) {
      UriTaken(b, rest);
    }
    assert TakesBack(one, take);
  }

  lemma UriBack(s: string)
    ensures UnescapeUri(EscapeUri(s)) == Some(s)
  {
    hide Encoding, Decoding, OneUri;
    var bs := Encoding(s);
    UriBytes(bs);
    UriTakesBack();
    DecodedEncoded(OneUriBytes, TakeUri, bs);
    DecodingIs(bs, s);
  }

  lemma VariantTaken(variant: string, c: char, rest: string)
    ensures OneOf(variant)(c) != "" && TakeOf(variant)(OneOf(variant)(c) + rest) == Some(Taken(c, |OneOf(variant)(c)|))
  {
    hide OneC, TakeC, OneXml, TakeXml, OneRegex, TakeRegex, OneSql, TakeSql, OneShell, TakeShell;
    CTaken('"', c, rest);
    CTaken('\'', c, rest);
    SqlTaken(c, rest);
    ShellTaken(c, rest);
    XmlTaken(c, rest);
    RegexTaken(c, rest);
  }

  /** For every variant and every text, unescaping the escaped text succeeds and gives the text. */
  lemma UnescapeEscape(s: string, variant: string)
    ensures Unescape(Escape(s, variant), variant) == Some(s)
  {
    hide OneOf, TakeOf;
    if variant == "uri" {
      UriBack(s);
    } else {
      assert TakesBack(OneOf(variant), TakeOf(variant)) by {
        forall c: char, rest: string
          ensures OneOf(variant)(c) != "" && TakeOf(variant)(OneOf(variant)(c) + rest) == Some(Taken(c, |OneOf(variant)(c)|))
        {
          VariantTaken(variant, c, rest);
        }
      }
      DecodedEncoded(OneOf(variant), TakeOf(variant), s);
    }
  }

  /** What a text percent-decodes to is exactly the UTF-8 of the answer: nothing overlong, no
      surrogate and nothing cut short has one. */
  lemma UriStrict(s: string, t: string)
    ensures UnescapeUri(s) == Some(t) <==> Decoded(TakeUri, Encoding(s)) == Some(Encoding(t))
  {
    hide Encoding, Decoding, Decoded;
    var bytes := Decoded(TakeUri, Encoding(s));
    if bytes.Some? { DecodingIs(bytes.value, t); }
  }
}
