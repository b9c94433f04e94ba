/**
 What the escape variants write (go/escape.go), told from the text written alone: a quoted
 literal is not ended early, no character the target would take for its own stands bare, and
 of all texts that are safe in this way none but the one written (or, where the target has
 several spellings, none shorter) is read back as the same text.
 */
module EscapedText {
  import opened Options
  import opened Coding
  import opened Numerals
  import opened Utf8
  import opened Escapes

  // ----- C and JSON

  /** Where a quoted text ends: at its first quote that has no backslash in front of it. */
  function LiteralEnd(quote: char, s: string): (end: nat)
    ensures end <= |s|
    decreases |s|
  {
    if s == "" || s[0] == quote then 0
    else if s[0] == '\\' && 2 <= |s| then 2 + LiteralEnd(quote, s[2..])
    else 1 + LiteralEnd(quote, s[1..])
  }

  predicate NoControl(s: string) {
    forall i :: 0 <= i < |s| ==> 0x20 <= s[i] as int
  }

  /** No quote ends the text and no control character stands in it. */
  predicate LiteralSafe(quote: char, s: string) {
    NoControl(s) && LiteralEnd(quote, s) == |s|
  }

  /** Characters that are neither a quote nor a backslash are passed. */
  lemma {:induction false} Passed(quote: char, plain: string, rest: string)
    requires forall i :: 0 <= i < |plain| ==> plain[i] != quote && plain[i] != '\\'
    ensures LiteralEnd(quote, plain + rest) == |plain| + LiteralEnd(quote, rest)
  {
    if plain == "" {
      assert plain + rest == rest;
    } else {
      var s := plain + rest;
      assert s[0] == plain[0] && s[1..] == plain[1..] + rest;
      Passed(quote, plain[1..], rest);
    }
  }

  lemma PairPassed(quote: char, c: char, rest: string)
    requires Quote(quote)
    ensures LiteralEnd(quote, ['\\', c] + rest) == 2 + LiteralEnd(quote, rest)
  {
    assert (['\\', c] + rest)[2..] == rest;
  }

  lemma HexPlain(n: int)
    requires 0 <= n < 0x10000
    ensures forall i :: 2 <= i < 6 ==> 0x20 <= Unicode4(n)[i] as int && !Quote(Unicode4(n)[i]) && Unicode4(n)[i] != '\\'
  {
    forall k | 0 <= k < 16 ensures 0x20 <= HexLower(k) as int && !Quote(HexLower(k)) && HexLower(k) != '\\' {}
  }

  /** One character written is passed whole. */
  lemma OnePassed(quote: char, c: char, rest: string)
    requires Quote(quote)
    ensures NoControl(OneC(quote, c))
    ensures LiteralEnd(quote, OneC(quote, c) + rest) == |OneC(quote, c)| + LiteralEnd(quote, rest)
  {
    hide Unicode4, LiteralEnd;
    var one := OneC(quote, c);
    if (c as int) < 0x20 { UnicodeShape(c as int); }
    if one == [c] {
      Passed(quote, [c], rest);
    } else if |one| == 2 {
      PairPassed(quote, one[1], rest);
      assert one == ['\\', one[1]];
    } else {
      HexPlain(c as int);
      Passed(quote, one[2..], rest);
      PairPassed(quote, 'u', one[2..] + rest);
      assert one + rest == ['\\', 'u'] + (one[2..] + rest);
    }
  }

  lemma {:induction false} AllPassed(quote: char, one: char -> string, s: string, rest: string)
    requires Quote(quote) && forall c :: one(c) == OneC(quote, c)
    ensures NoControl(Encoded(one, s))
    ensures LiteralEnd(quote, Encoded(one, s) + rest) == |Encoded(one, s)| + LiteralEnd(quote, rest)
  {
    hide OneC, LiteralEnd;
    if s == "" {
      assert Encoded(one, s) + rest == rest;
    } else {
      var e := Encoded(one, s[1..]);
      OnePassed(quote, s[0], e + rest);
      AllPassed(quote, one, s[1..], rest);
      assert (one(s[0]) + e) + rest == one(s[0]) + (e + rest);
    }
  }

  predicate Quoting(variant: string) {
    variant != "sql" && variant != "shell" && variant != "xml" && variant != "uri" && variant != "regex"
  }

  function QuoteOf(variant: string): char {
    if variant == "sq" then '\'' else '"'
  }

  /** Between its quotes the text written ends where it is closed, whatever follows, and holds no
      control character. */
  lemma LiteralClosed(s: string, variant: string, rest: string)
    requires Quoting(variant)
    ensures var quote, out := QuoteOf(variant), Escape(s, variant);
            NoControl(out) && LiteralEnd(quote, out + [quote] + rest) == |out|
  {
    hide OneC, Encoded;
    var quote, out := QuoteOf(variant), Escape(s, variant);
    AllPassed(quote, OneOf(variant), s, [quote] + rest);
    assert out + [quote] + rest == out + ([quote] + rest);
  }

  lemma LiteralWritten(s: string, variant: string)
    requires Quoting(variant)
    ensures LiteralSafe(QuoteOf(variant), Escape(s, variant))
  {
    hide OneC, Encoded;
    var out := Escape(s, variant);
    AllPassed(QuoteOf(variant), OneOf(variant), s, "");
    assert out + "" == out;
  }

  /** Four digits are no quote and no backslash. */
  lemma HexPassed(quote: char, s: string, at: nat)
    requires Quote(quote) && 0 <= Hex4(s, at)
    ensures at + 4 <= |s| && LiteralEnd(quote, s[at..]) == 4 + LiteralEnd(quote, s[at + 4..])
  {
    hide LiteralEnd;
    assert HexValue(quote) == -1 && HexValue('\\') == -1;
    Passed(quote, s[at..at + 4], s[at + 4..]);
    assert s[at..] == s[at..at + 4] + s[at + 4..];
  }

  lemma EndStep(quote: char, s: string)
    requires s != "" && s[0] == '\\' && 2 <= |s| && quote != '\\'
    ensures LiteralEnd(quote, s) == 2 + LiteralEnd(quote, s[2..])
  {
  }

  /** One character off a safe text: what is left is safe, and the encoder writes no more for it. */
  lemma TakenSafe(quote: char, s: string)
    requires Quote(quote) && s != "" && LiteralSafe(quote, s) && TakeC(quote, s).Some? && TakeC(quote, s).value.size <= |s|
    ensures var t := TakeC(quote, s).value;
            0 < t.size && LiteralSafe(quote, s[t.size..]) && |OneC(quote, t.item)| <= t.size
  {
    hide Hex4, Unicode4, LiteralEnd;
    var t := TakeC(quote, s).value;
    FirstSafe(quote, s);
    if s[0] == '\\' {
      EndStep(quote, s);
      if 2 < t.size {
        HexPassed(quote, s, 2);
        UnicodeLong(quote, t.item);
        if t.size == 12 {
          EndStep(quote, s[6..]);
          assert s[6..][2..] == s[8..];
          HexPassed(quote, s, 8);
        }
      }
    }
  }

  lemma FirstSafe(quote: char, s: string)
    requires s != "" && LiteralSafe(quote, s)
    ensures s[0] != quote && 0x20 <= s[0] as int
    ensures s[0] != '\\' ==> LiteralEnd(quote, s) == 1 + LiteralEnd(quote, s[1..])
  {
  }

  lemma UnicodeLong(quote: char, c: char)
    ensures |OneC(quote, c)| <= 6
  {
  }

  lemma {:induction false} ShortestC(quote: char, one: char -> string, take: string -> Option<Taken<char>>, t: string)
    requires Quote(quote) && (forall c :: one(c) == OneC(quote, c)) && (forall s :: take(s) == TakeC(quote, s))
    requires LiteralSafe(quote, t) && Decoded(take, t).Some?
    ensures |Encoded(one, Decoded(take, t).value)| <= |t|
    decreases |t|
  {
    hide LiteralSafe, TakeC, OneC, Encoded, Decoded;
    if t == "" {
      CodedNone(one, take);
    } else {
      DecodedHead(take, t);
      TakenSafe(quote, t);
      var c, rest := take(t).value, t[take(t).value.size..];
      ShortestC(quote, one, take, rest);
      EncodedHead(one, c.item, Decoded(take, rest).value);
    }
  }

  lemma CodedNone<A(!new), B(!new)>(one: A -> seq<B>, take: seq<B> -> Option<Taken<A>>)
    ensures Encoded(one, []) == [] && Decoded(take, []) == Some([])
  {
  }

  /** The value of four hexadecimal digits. */
  function Four(p: string): int
    requires |p| == 4
  {
    HexValue(p[0]) * 4096 + HexValue(p[1]) * 256 + HexValue(p[2]) * 16 + HexValue(p[3])
  }

  predicate FourDigits(p: string) {
    |p| == 4 && forall i :: 0 <= i < 4 ==> 0 <= HexValue(p[i])
  }

  /** The spellings of a character between quotes: itself, a short escape, its code, or, beyond the basic
      plane, the codes of its surrogates (section 7 of RFC 8259). */
  predicate Spelt(quote: char, p: string, c: char) {
    || (p == [c] && c != '\\')
    || (|p| == 2 && p[0] == '\\' && Short(quote, p[1], c))
    || (|p| == 6 && p[..2] == "\\u" && FourDigits(p[2..]) && Four(p[2..]) == c as int)
    || (|p| == 12 && p[..2] == "\\u" && FourDigits(p[2..6]) && p[6..8] == "\\u" && FourDigits(p[8..])
        && 0xD800 <= Four(p[2..6]) <= 0xDBFF && 0xDC00 <= Four(p[8..]) <= 0xDFFF
        && c as int == (Four(p[2..6]) - 0xD800) * 0x400 + (Four(p[8..]) - 0xDC00) + 0x10000)
  }

  predicate Short(quote: char, letter: char, c: char) {
    || (letter == '\\' && c == '\\') || (letter == quote && c == quote)
    || (letter == 'n' && c == '\n') || (letter == 'r' && c == '\r') || (letter == 't' && c == '\t')
    || (letter == 'b' && c as int == 8) || (letter == 'f' && c as int == 12)
  }

  lemma FourIs(s: string, at: nat)
    requires at + 4 <= |s|
    ensures 0 <= Hex4(s, at) <==> FourDigits(s[at..at + 4])
    ensures 0 <= Hex4(s, at) ==> Hex4(s, at) == Four(s[at..at + 4])
  {
    hide HexValue;
    var p := s[at..at + 4];
    assert p[0] == s[at] && p[1] == s[at + 1] && p[2] == s[at + 2] && p[3] == s[at + 3];
  }

  lemma BareIff(quote: char, s: string, c: char)
    requires s != "" && s[0] != '\\'
    ensures TakeC(quote, s) == Some(Taken(s[0], 1))
    ensures forall n :: 0 <= n <= |s| && Spelt(quote, s[..n], c) ==> n == 1 && c == s[0]
    ensures Spelt(quote, s[..1], s[0])
  {
    assert s[..1] == [s[0]];
    forall n | 0 <= n <= |s| && Spelt(quote, s[..n], c) ensures n == 1 && c == s[0] { assert n != 0 && s[..n][0] == s[0]; }
  }

  lemma Prefix(s: string, n: nat)
    requires n <= |s|
    ensures |s[..n]| == n && forall i :: 0 <= i < n ==> s[..n][i] == s[i]
  {
  }

  lemma ShortIff(quote: char, s: string, c: char)
    requires Quote(quote) && 2 <= |s| && s[0] == '\\' && s[1] != 'u'
    ensures TakeC(quote, s) == Some(Taken(c, 2)) <==> Spelt(quote, s[..2], c)
    ensures TakeC(quote, s).Some? ==> TakeC(quote, s).value.size == 2
    ensures forall n :: 0 <= n <= |s| && Spelt(quote, s[..n], c) ==> n == 2
  {
    assert s[..2] == [s[0], s[1]];
    forall n | 0 <= n <= |s| && Spelt(quote, s[..n], c) ensures n == 2 {
      Prefix(s, n);
    }
  }

  lemma CodeIff(quote: char, s: string, c: char)
    requires Quote(quote) && 6 <= |s| && s[0] == '\\' && s[1] == 'u'
    ensures TakeC(quote, s) == Some(Taken(c, 6)) <==> Spelt(quote, s[..6], c)
    ensures 12 <= |s| ==> (TakeC(quote, s) == Some(Taken(c, 12)) <==> Spelt(quote, s[..12], c))
    ensures TakeC(quote, s).Some? ==> TakeC(quote, s).value.size == 6 || (12 <= |s| && TakeC(quote, s).value.size == 12)
  {
    hide HexValue, Hex4, Four, FourDigits;
    FourIs(s, 2);
    assert s[..6][..2] == ['\\', 'u'] && s[..6][2..] == s[2..6];
    if 12 <= |s| {
      FourIs(s, 8);
      var p := s[..12];
      assert p[..2] == ['\\', 'u'] && p[2..6] == s[2..6] && p[8..] == s[8..12];
      assert p[6..8] == [s[6], s[7]];
    } else if 8 <= |s| {
      Hex4Short(s, 8);
    }
  }

  lemma Hex4Short(s: string, at: nat)
    requires |s| < at + 4
    ensures Hex4(s, at) == -1
  {
  }

  lemma CodeSizes(quote: char, s: string, c: char, n: nat)
    requires Quote(quote) && 2 <= |s| && s[0] == '\\' && s[1] == 'u' && n <= |s| && Spelt(quote, s[..n], c)
    ensures n == 6 || n == 12
  {
    Prefix(s, n);
  }

  lemma CodeShort(quote: char, s: string)
    requires 2 <= |s| < 6 && s[0] == '\\' && s[1] == 'u' && Quote(quote)
    ensures TakeC(quote, s).None?
  {
    hide Hex4;
    Hex4Short(s, 2);
  }

  /** A character is read off exactly where it is spelled. */
  lemma TakeIff(quote: char, s: string, c: char, n: nat)
    requires Quote(quote) && s != "" && n <= |s|
    ensures TakeC(quote, s) == Some(Taken(c, n)) <==> Spelt(quote, s[..n], c)
  {
    hide TakeC, Spelt;
    if s[0] != '\\' {
      BareIff(quote, s, c);
      if Spelt(quote, s[..n], c) { assert n == 1 && c == s[0]; }
    } else if |s| < 2 {
      LoneIff(quote, s, c, n);
    } else if s[1] != 'u' {
      ShortIff(quote, s, c);
      if Spelt(quote, s[..n], c) { assert n == 2; }
    } else {
      if Spelt(quote, s[..n], c) { CodeSizes(quote, s, c, n); }
      if 6 <= |s| { CodeIff(quote, s, c); } else { CodeShort(quote, s); }
    }
  }

  lemma LoneIff(quote: char, s: string, c: char, n: nat)
    requires |s| == 1 && s[0] == '\\' && n <= 1
    ensures TakeC(quote, s).None? && !Spelt(quote, s[..n], c)
  {
    if n == 1 { assert s[..1][0] == '\\'; }
  }

  /** A text cut into pieces that spell the characters of another. */
  ghost predicate SpellsOut(quote: char, t: string, s: string)
    decreases |s|
  {
    if s == "" then t == "" else exists n: nat :: n <= |t| && Spelt(quote, t[..n], s[0]) && SpellsOut(quote, t[n..], s[1..])
  }

  lemma {:induction false} SpeltDecodes(quote: char, take: string -> Option<Taken<char>>, t: string, s: string)
    requires Quote(quote) && forall u :: take(u) == TakeC(quote, u)
    ensures Decoded(take, t) == Some(s) <==> SpellsOut(quote, t, s)
    decreases |t|
  {
    hide TakeC, Spelt;
    if t == "" {
      NothingSpelt(quote, s);
      assert forall n: nat :: n <= |t| ==> t[..n] == "";
    } else {
      if Decoded(take, t) == Some(s) {
        DecodedHead(take, t);
        var c := take(t).value;
        SpeltDecodes(quote, take, t[c.size..], s[1..]);
        TakeIff(quote, t, c.item, c.size);
      }
      if SpellsOut(quote, t, s) && s != "" {
        var n: nat :| n <= |t| && Spelt(quote, t[..n], s[0]) && SpellsOut(quote, t[n..], s[1..]);
        TakeIff(quote, t, s[0], n);
        NothingSpelt(quote, s);
        assert t[..0] == "";
        SpeltDecodes(quote, take, t[n..], s[1..]);
        assert [s[0]] + s[1..] == s;
      }
    }
  }

  lemma NothingSpelt(quote: char, s: string)
    ensures s != "" ==> !Spelt(quote, "", s[0])
  {
  }

  /** Between quotes a text is read back exactly where it spells what is read. */
  lemma UnescapeIff(t: string, variant: string, s: string)
    requires Quoting(variant)
    ensures Unescape(t, variant) == Some(s) <==> SpellsOut(QuoteOf(variant), t, s)
  {
    hide TakeC, Decoded, SpellsOut;
    SpeltDecodes(QuoteOf(variant), TakeOf(variant), t, s);
  }

  /** No safe text that is read back as s is shorter than the one written for it. */
  lemma ShortestLiteral(s: string, variant: string, t: string)
    requires Quoting(variant) && LiteralSafe(QuoteOf(variant), t) && Unescape(t, variant) == Some(s)
    ensures |Escape(s, variant)| <= |t|
  {
    hide OneC, TakeC, Encoded, Decoded, LiteralSafe;
    ShortestC(QuoteOf(variant), OneOf(variant), TakeOf(variant), t);
  }

  // ----- one text for each

  /** On safe texts the decoder takes off nothing the encoder would not have written. */
  ghost predicate TakesWritten<A(!new), B(!new)>(one: A -> seq<B>, take: seq<B> -> Option<Taken<A>>, safe: seq<B> -> bool) {
    forall s: seq<B> :: safe(s) && take(s).Some? && 0 < take(s).value.size <= |s| ==>
      s[..take(s).value.size] == one(take(s).value.item) && safe(s[take(s).value.size..])
  }

  lemma {:induction false} WrittenOnly<A(!new), B(!new)>(one: A -> seq<B>, take: seq<B> -> Option<Taken<A>>, safe: seq<B> -> bool, t: seq<B>)
    requires TakesWritten(one, take, safe) && safe(t) && Decoded(take, t).Some?
    ensures Encoded(one, Decoded(take, t).value) == t
    decreases |t|
  {
    hide Decoded, Encoded;
    if t == [] {
      CodedNone(one, take);
    } else {
      DecodedHead(take, t);
      var c, rest := take(t).value, t[take(t).value.size..];
      WrittenOnly(one, take, safe, rest);
      EncodedHead(one, c.item, Decoded(take, rest).value);
      Cut(t, c.size);
    }
  }

  // ----- SQL

  /** Where a literal of standard SQL ends: at the first quote that is not doubled. */
  function SqlEnd(s: string): nat
    decreases |s|
  {
    if s == "" then 0
    else if s[0] != '\'' then 1 + SqlEnd(s[1..])
    else if 2 <= |s| && s[1] == '\'' then 2 + SqlEnd(s[2..])
    else 0
  }

  lemma {:induction false} SqlPassed(s: string, rest: string)
    ensures SqlEnd(Encoded(OneSql, s) + rest) == |Encoded(OneSql, s)| + SqlEnd(rest)
  {
    if s == "" {
      assert Encoded(OneSql, s) + rest == rest;
    } else {
      var e := Encoded(OneSql, s[1..]);
      SqlPassed(s[1..], rest);
      assert (OneSql(s[0]) + e) + rest == OneSql(s[0]) + (e + rest);
      if s[0] == '\'' { assert ("''" + (e + rest))[2..] == e + rest; } else { assert ([s[0]] + (e + rest))[1..] == e + rest; }
    }
  }

  /** A literal ends where the text written is closed. */
  lemma SqlClosed(s: string, rest: string)
    requires rest == "" || rest[0] != '\''
    ensures SqlEnd(Escape(s, "sql") + "'" + rest) == |Escape(s, "sql")|
  {
    hide Encoded;
    var out := Escape(s, "sql");
    SqlPassed(s, "'" + rest);
    assert out + "'" + rest == out + ("'" + rest);
    assert ("'" + rest)[0] == '\'';
    if rest != "" { assert ("'" + rest)[1] == rest[0]; }
  }

  lemma SqlOnly(t: string)
    requires Decoded(TakeSql, t).Some?
    ensures Encoded(OneSql, Decoded(TakeSql, t).value) == t
  {
    hide Encoded, Decoded;
    EncodedDecoded(OneSql, TakeSql, t);
  }

  /** Unescaping is undone by escaping: every text is read back but one with a lone quote, and
      it is read back as the one text it is written for. */
  lemma SqlOne(s: string, t: string)
    ensures Unescape(t, "sql") == Some(s) <==> t == Escape(s, "sql")
  {
    hide Encoded, Decoded, OneSql, TakeSql, OneShell, TakeShell;
    UnescapeEscape(s, "sql");
    if Unescape(t, "sql") == Some(s) { SqlOnly(t); }
  }

  // ----- shell

  function Before(c: char, rest: Option<string>): Option<string> {
    if rest.None? then None else Some([c] + rest.value)
  }

  /** The text of one word of a shell (sections 2.2.1 and 2.2.2 of the POSIX shell language):
      between single quotes every character stands for itself, outside them only one behind a
      backslash does; none where the word does not take up the whole input. */
  function ShellWord(quoted: bool, s: string): Option<string>
    decreases |s|
  {
    if s == "" then if quoted then None else Some("")
    else if s[0] == '\'' then ShellWord(!quoted, s[1..])
    else if quoted then Before(s[0], ShellWord(true, s[1..]))
    else if s[0] == '\\' && 2 <= |s| then Before(s[1], ShellWord(false, s[2..]))
    else None
  }

  lemma ShellQuote(rest: string)
    ensures ShellWord(true, "'\\''" + rest) == Before('\'', ShellWord(true, rest))
  {
    var s := "'\\''" + rest;
    var s1, s2 := "\\''" + rest, "'" + rest;
    assert s[0] == '\'' && s[1..] == s1;
    assert s1[0] == '\\' && s1[1] == '\'' && s1[2..] == s2;
    assert s2[0] == '\'' && s2[1..] == rest;
    assert ShellWord(false, s1) == Before('\'', ShellWord(false, s2));
  }

  lemma ShellStep(c: char, rest: string)
    ensures ShellWord(true, OneShell(c) + rest) == Before(c, ShellWord(true, rest))
  {
    if c == '\'' { ShellQuote(rest); } else { assert ([c] + rest)[1..] == rest; }
  }

  lemma {:induction false} ShellQuoted(s: string)
    ensures ShellWord(true, Encoded(OneShell, s) + "'") == Some(s)
  {
    hide ShellWord, OneShell;
    if s == "" {
      ShellClosed();
    } else {
      var e := Encoded(OneShell, s[1..]) + "'";
      ShellQuoted(s[1..]);
      ShellStep(s[0], e);
      assert Encoded(OneShell, s) + "'" == OneShell(s[0]) + e;
      assert [s[0]] + s[1..] == s;
    }
  }

  lemma ShellClosed()
    ensures ShellWord(true, Encoded(OneShell, "") + "'") == Some("")
  {
    assert Encoded(OneShell, "") + "'" == "'";
  }

  /** In single quotes the text written is one word of the shell, and that word is the text. */
  lemma ShellWhole(s: string)
    ensures ShellWord(false, "'" + Escape(s, "shell") + "'") == Some(s)
  {
    hide Encoded;
    ShellQuoted(s);
    assert ("'" + Escape(s, "shell") + "'")[1..] == Escape(s, "shell") + "'";
  }

  lemma ShellOnly(t: string)
    requires Decoded(TakeShell, t).Some?
    ensures Encoded(OneShell, Decoded(TakeShell, t).value) == t
  {
    hide Encoded, Decoded;
    forall u: string | TakeShell(u).Some? && 0 < TakeShell(u).value.size <= |u|
      ensures u[..TakeShell(u).value.size] == OneShell(TakeShell(u).value.item)
    {
      if u[0] == '\'' { assert u[..4] == "'\\''"; } else { assert u[..1] == [u[0]]; }
    }
    EncodedDecoded(OneShell, TakeShell, t);
  }

  lemma ShellOne(s: string, t: string)
    ensures Unescape(t, "shell") == Some(s) <==> t == Escape(s, "shell")
  {
    hide Encoded, Decoded, OneSql, TakeSql, OneShell, TakeShell;
    UnescapeEscape(s, "shell");
    if Unescape(t, "shell") == Some(s) { ShellOnly(t); }
  }

  // ----- XML

  /** The text begins with one of the five entities. */
  predicate AtEntity(s: string) {
    "&amp;" <= s || "&lt;" <= s || "&gt;" <= s || "&quot;" <= s || "&apos;" <= s
  }

  /** Every ampersand begins an entity. */
  predicate AmpersandsSafe(s: string) {
    forall i :: 0 <= i < |s| && s[i] == '&' ==> AtEntity(s[i..])
  }

  predicate XmlSafe(s: string) {
    AmpersandsSafe(s) && forall i :: 0 <= i < |s| ==> s[i] != '<' && s[i] != '>' && s[i] != '"' && s[i] != '\''
  }

  lemma XmlPiece(c: char)
    ensures OneXml(c) == [c] || AtEntity(OneXml(c))
    ensures OneXml(c) == [c] ==> c != '&'
    ensures forall i :: 0 <= i < |OneXml(c)| ==>
              OneXml(c)[i] != '<' && OneXml(c)[i] != '>' && OneXml(c)[i] != '"' && OneXml(c)[i] != '\''
    ensures forall i :: 1 <= i < |OneXml(c)| ==> OneXml(c)[i] != '&'
  {
    EntityIs(c);
  }

  lemma EntityStays(s: string, rest: string)
    requires AtEntity(s)
    ensures AtEntity(s + rest)
  {
    assert (s + rest)[..|s|] == s;
  }

  lemma {:induction false} XmlWritten(s: string)
    ensures XmlSafe(Escape(s, "xml"))
  {
    hide OneXml, AtEntity;
    if s != "" {
      XmlWritten(s[1..]);
      var one, e := OneXml(s[0]), Encoded(OneXml, s[1..]);
      var out := one + e;
      XmlPiece(s[0]);
      forall i | 0 <= i < |out|
        ensures out[i] != '<' && out[i] != '>' && out[i] != '"' && out[i] != '\'' && (out[i] == '&' ==> AtEntity(out[i..]))
      {
        if i < |one| {
          assert out[i] == one[i];
          if out[i] == '&' {
            assert i == 0 && out[0..] == out;
            EntityStays(one, e);
          }
        } else {
          assert out[i] == e[i - |one|] && out[i..] == e[i - |one|..];
        }
      }
    }
  }

  lemma AmpersandTaken(s: string)
    ensures TakeEntity(ENTITIES, s) ==
      if "&amp;" <= s then Some(Taken('&', 5)) else if "&lt;" <= s then Some(Taken('<', 4)) else if "&gt;" <= s then Some(Taken('>', 4))
      else if "&quot;" <= s then Some(Taken('"', 6)) else if "&apos;" <= s then Some(Taken('\'', 6)) else None
  {
    var e1, e2, e3, e4 := ENTITIES[1..], ENTITIES[2..], ENTITIES[3..], ENTITIES[4..];
    assert e1[1..] == e2 && e2[1..] == e3 && e3[1..] == e4 && e4[1..] == [];
    assert TakeEntity(ENTITIES, s) == if "&amp;" <= s then Some(Taken('&', 5)) else TakeEntity(e1, s);
    assert TakeEntity(e1, s) == if "&lt;" <= s then Some(Taken('<', 4)) else TakeEntity(e2, s);
    assert TakeEntity(e2, s) == if "&gt;" <= s then Some(Taken('>', 4)) else TakeEntity(e3, s);
    assert TakeEntity(e3, s) == if "&quot;" <= s then Some(Taken('"', 6)) else TakeEntity(e4, s);
    assert TakeEntity(e4, s) == if "&apos;" <= s then Some(Taken('\'', 6)) else TakeEntity([], s);
  }

  /** One character off: an entity is taken whole and leaves the ampersands behind it as they were. */
  lemma XmlTake(s: string)
    requires s != ""
    ensures s[0] == '&' ==> (TakeXml(s).Some? <==> AtEntity(s))
    ensures s[0] != '&' ==> TakeXml(s) == Some(Taken(s[0], 1))
    ensures TakeXml(s).Some? ==>
              var t := TakeXml(s).value;
              0 < t.size <= |s| && (forall i :: 1 <= i < t.size ==> s[i] != '&') && (s[0] == '&' ==> s[..t.size] == OneXml(t.item))
  {
    hide TakeEntity, OneXml;
    if s[0] == '&' {
      AmpersandTaken(s);
      if TakeXml(s).Some? { EntityIs(TakeXml(s).value.item); }
    }
  }

  lemma AmpersandsCut(s: string, n: nat)
    requires 0 < n <= |s| && (forall i :: 1 <= i < n ==> s[i] != '&')
    ensures AmpersandsSafe(s) <==> (s[0] == '&' ==> AtEntity(s)) && AmpersandsSafe(s[n..])
  {
    hide AtEntity;
    assert s[0..] == s;
    forall i | 0 <= i < |s[n..]| ensures s[n..][i] == s[n + i] && s[n..][i..] == s[n + i..] {}
    forall i | n <= i < |s| && AmpersandsSafe(s[n..]) && s[i] == '&' ensures AtEntity(s[i..]) {
      assert s[n..][i - n] == '&';
      assert s[n..][i - n..] == s[i..];
    }
  }

  /** A text is refused exactly for an ampersand that begins no entity. */
  lemma {:induction false} XmlRefusedIff(t: string)
    ensures Unescape(t, "xml").Some? <==> AmpersandsSafe(t)
    decreases |t|
  {
    hide TakeXml, AtEntity, AmpersandsSafe;
    if t == "" {
      NoAmpersand();
    } else {
      XmlTake(t);
      if TakeXml(t).Some? {
        AmpersandsCut(t, TakeXml(t).value.size);
        XmlRefusedIff(t[TakeXml(t).value.size..]);
      } else {
        AmpersandsCut(t, 1);
      }
    }
  }

  lemma NoAmpersand()
    ensures AmpersandsSafe("")
  {
  }

  /** Of the texts that are safe in an attribute or between tags exactly the one written is read
      back as s. */
  lemma XmlOne(s: string, t: string)
    ensures XmlSafe(t) && Unescape(t, "xml") == Some(s) <==> t == Escape(s, "xml")
  {
    hide TakeXml, OneXml, Encoded, Decoded, XmlSafe;
    UnescapeEscape(s, "xml");
    XmlWritten(s);
    if XmlSafe(t) && Unescape(t, "xml") == Some(s) { XmlOnly(t); }
  }

  lemma XmlOnly(t: string)
    requires XmlSafe(t) && Decoded(TakeXml, t).Some?
    ensures Encoded(OneXml, Decoded(TakeXml, t).value) == t
  {
    hide TakeXml, OneXml, Encoded, Decoded, XmlSafe;
    var one: char -> string, take: string -> Option<Taken<char>>, safe: string -> bool := OneXml, TakeXml, XmlSafe;
    assert TakesWritten(one, take, safe) by {
      forall u: string | XmlSafe(u) && TakeXml(u).Some? && 0 < TakeXml(u).value.size <= |u|
        ensures u[..TakeXml(u).value.size] == OneXml(TakeXml(u).value.item) && XmlSafe(u[TakeXml(u).value.size..])
      {
        XmlTakeSafe(u);
      }
    }
    WrittenOnly(one, take, safe, t);
  }

  lemma XmlTakeSafe(u: string)
    requires XmlSafe(u) && TakeXml(u).Some? && 0 < TakeXml(u).value.size <= |u|
    ensures u[..TakeXml(u).value.size] == OneXml(TakeXml(u).value.item) && XmlSafe(u[TakeXml(u).value.size..])
  {
    hide TakeXml, OneXml, AtEntity;
    XmlTake(u);
    AmpersandsCut(u, TakeXml(u).value.size);
    if u[0] != '&' {
      EntityIs(u[0]);
      assert u[..1] == [u[0]];
    }
  }

  // ----- regular expressions

  /** What a pattern takes for an operator. */
  predicate Meta(c: char) {
    || c == '\\' || c == '.' || c == '+' || c == '*' || c == '?' || c == '(' || c == ')' || c == '[' || c == ']'
    || c == '{' || c == '}' || c == '|' || c == '^' || c == '$' || c == '/'
  }

  /** Every backslash has a metacharacter behind it. */
  predicate BackslashesSafe(s: string)
    decreases |s|
  {
    if s == "" then true
    else if s[0] == '\\' then 2 <= |s| && Meta(s[1]) && BackslashesSafe(s[2..])
    else BackslashesSafe(s[1..])
  }

  /** And every metacharacter has a backslash in front: the pattern is all literal. */
  predicate RegexSafe(s: string)
    decreases |s|
  {
    if s == "" then true
    else if s[0] == '\\' then 2 <= |s| && Meta(s[1]) && RegexSafe(s[2..])
    else !Meta(s[0]) && RegexSafe(s[1..])
  }

  lemma MetaIs(c: char)
    ensures c in REGEX_PUNCT <==> Meta(c)
  {
    var p := REGEX_PUNCT;
    assert p[0] == '\\' && p[1] == '.' && p[2] == '+' && p[3] == '*' && p[4] == '?' && p[5] == '(' && p[6] == ')' && p[7] == '[';
    assert p[8] == ']' && p[9] == '{' && p[10] == '}' && p[11] == '|' && p[12] == '^' && p[13] == '$' && p[14] == '/';
  }

  lemma OneRegexIs(c: char)
    ensures OneRegex(c) == if Meta(c) then ['\\', c] else [c]
  {
    MetaIs(c);
  }

  lemma TakeRegexIs(s: string)
    requires s != ""
    ensures TakeRegex(s) == if s[0] != '\\' then Some(Taken(s[0], 1))
                            else if |s| <= 1 || !Meta(s[1]) then None else Some(Taken(s[1], 2))
  {
    if 1 < |s| { MetaIs(s[1]); }
  }

  /** Every metacharacter of the text written stands behind a backslash. */
  lemma {:induction false} RegexWritten(s: string)
    ensures RegexSafe(Escape(s, "regex"))
  {
    hide OneRegex, Meta;
    if s != "" {
      var e := Encoded(OneRegex, s[1..]);
      RegexWritten(s[1..]);
      OneRegexIs(s[0]);
      assert Meta('\\') by { BackslashMeta(); }
      if Meta(s[0]) { assert (['\\', s[0]] + e)[2..] == e; } else { assert ([s[0]] + e)[1..] == e; }
    }
  }

  lemma BackslashMeta()
    ensures Meta('\\')
  {
  }

  /** A text is refused exactly for a backslash with no metacharacter behind it. */
  lemma {:induction false} RegexRefusedIff(t: string)
    ensures Unescape(t, "regex").Some? <==> BackslashesSafe(t)
    decreases |t|
  {
    hide TakeRegex, Meta;
    if t != "" {
      TakeRegexIs(t);
      if TakeRegex(t).Some? { RegexRefusedIff(t[TakeRegex(t).value.size..]); }
    }
  }

  lemma RegexTakeSafe(u: string)
    requires RegexSafe(u) && TakeRegex(u).Some? && 0 < TakeRegex(u).value.size <= |u|
    ensures u[..TakeRegex(u).value.size] == OneRegex(TakeRegex(u).value.item) && RegexSafe(u[TakeRegex(u).value.size..])
  {
    hide OneRegex, TakeRegex, Meta;
    TakeRegexIs(u);
    OneRegexIs(TakeRegex(u).value.item);
    if u[0] == '\\' { assert u[..2] == ['\\', u[1]]; } else { assert u[..1] == [u[0]]; }
  }

  /** Of the patterns that are all literal exactly the one written is read back as s. */
  lemma RegexOne(s: string, t: string)
    ensures RegexSafe(t) && Unescape(t, "regex") == Some(s) <==> t == Escape(s, "regex")
  {
    hide TakeRegex, OneRegex, Encoded, Decoded, RegexSafe;
    UnescapeEscape(s, "regex");
    RegexWritten(s);
    if RegexSafe(t) && Unescape(t, "regex") == Some(s) { RegexOnly(t); }
  }

  lemma RegexOnly(t: string)
    requires RegexSafe(t) && Decoded(TakeRegex, t).Some?
    ensures Encoded(OneRegex, Decoded(TakeRegex, t).value) == t
  {
    hide TakeRegex, OneRegex, Encoded, Decoded, RegexSafe;
    var one: char -> string, take: string -> Option<Taken<char>>, safe: string -> bool := OneRegex, TakeRegex, RegexSafe;
    assert TakesWritten(one, take, safe) by {
      forall u: string | RegexSafe(u) && TakeRegex(u).Some? && 0 < TakeRegex(u).value.size <= |u|
        ensures u[..TakeRegex(u).value.size] == OneRegex(TakeRegex(u).value.item) && RegexSafe(u[TakeRegex(u).value.size..])
      {
        RegexTakeSafe(u);
      }
    }
    WrittenOnly(one, take, safe, t);
  }

  // ----- percent encoding

  /** The unreserved characters (section 2.3 of RFC 3986). */
  predicate UnreservedChar(c: char) {
    'A' <= c <= 'Z' || 'a' <= c <= 'z' || '0' <= c <= '9' || c == '-' || c == '.' || c == '_' || c == '~'
  }

  predicate UpperHex(c: char) {
    '0' <= c <= '9' || 'A' <= c <= 'F'
  }

  /** Unreserved characters and percent signs with two hexadecimal digits, nothing else. */
  predicate UriSafe(s: string)
    decreases |s|
  {
    if s == "" then true
    else if s[0] == '%' then 3 <= |s| && UpperHex(s[1]) && UpperHex(s[2]) && UriSafe(s[3..])
    else UnreservedChar(s[0]) && UriSafe(s[1..])
  }

  lemma {:induction false} UriPieces(bs: seq<Byte>)
    ensures UriSafe(Encoded(OneUri, bs))
  {
    hide OneUri, UnreservedChar, UpperHex;
    if bs != [] {
      var e := Encoded(OneUri, bs[1..]);
      UriPieces(bs[1..]);
      UriPiece(bs[0]);
      var one := OneUri(bs[0]);
      if |one| == 1 { assert (one + e)[1..] == e; } else { assert (one + e)[3..] == e; }
    }
  }

  lemma UriPiece(b: Byte)
    ensures var one := OneUri(b);
            if UnreservedChar(b as char) then one == [b as char] && one[0] != '%'
            else |one| == 3 && one[0] == '%' && UpperHex(one[1]) && UpperHex(one[2])
  {
  }

  lemma UriWritten(s: string)
    ensures UriSafe(Escape(s, "uri"))
  {
    UriPieces(Encoding(s));
  }

  /** Unreserved characters are written as they stand. */
  lemma {:induction false} UriBare(s: string)
    requires forall i :: 0 <= i < |s| ==> UnreservedChar(s[i])
    ensures Escape(s, "uri") == s
  {
    hide OneUri, Bytes;
    if s != "" {
      UriBare(s[1..]);
      OneByte(s[0]);
      UriPiece(s[0] as int);
      EncodedHead<Byte, char>(OneUri, s[0] as int, Encoding(s[1..]));
      assert Encoding(s) == [s[0] as int] + Encoding(s[1..]);
      assert [s[0]] + s[1..] == s;
    }
  }
}
