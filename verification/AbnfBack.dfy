/**
 Every readable node is read back from its canonical text, at every level and in front of
 whatever may follow it (go/formatgrammar.go:270-457).
 */
module AbnfBack {
  import opened Numerals
  import opened Ranges
  import opened Grammar
  import opened AbnfText
  import opened AbnfShown

  // ----- what may follow

  predicate TokenStop(rest: string) {
    rest == "" || rest[0] == ' ' || rest[0] == ')' || rest[0] == ']'
  }

  predicate Stop(rest: string, level: nat) {
    && TokenStop(rest) && (level <= 1 ==> Ends(Spaces(rest)))
    && (level == 0 ==> Spaces(rest) == "" || Spaces(rest)[0] != '/')
  }

  function After(rest: string, level: nat): string {
    if level <= 1 then Spaces(rest) else rest
  }

  /** How a text at a level begins: with no space and no end, and among elements with no bound. */
  predicate Opens(s: string, level: nat) {
    s != "" && !Space(s[0]) && !Ends(s) && (level == 3 ==> !Digit10(s[0]) && s[0] != '*')
  }

  lemma OpensOn(s: string, rest: string, level: nat)
    requires Opens(s, level)
    ensures Opens(s + rest, level)
  {
  }

  lemma {:induction false} InsideOpens(n: Node)
    requires Readable(n)
    ensures Opens(Inside(n), if Rank(n) == 3 then 3 else 0)
    decreases n, 0
  {
    match n
    case Alt(kids) => ShowOpens(kids[0], 1);
    case Cat(kids) => if kids != [] { ShowOpens(kids[0], 2); }
    case Rep(_, min, _) => assert Digit10(DigitsOf(min)[0]);
    case Ref(_) =>
    case Str(cps, ci) => StrOpens(cps, ci);
    case Cls(_) =>
  }

  lemma StrOpens(cps: seq<int>, ci: bool)
    requires Readable(Str(cps, ci))
    ensures ShowStr(cps, ci) != "" && (ShowStr(cps, ci)[0] == '%' || ShowStr(cps, ci)[0] == '"')
  {
    if Quotable(cps) {
      assert ("" + "\"" + CharsOf(cps) + "\"")[0] == '"';
      assert ("%s" + "\"" + CharsOf(cps) + "\"")[0] == '%';
    }
  }

  lemma {:induction false} ShowOpens(n: Node, level: nat)
    requires Readable(n) && level <= 3
    ensures Opens(Show(n, level), level)
    decreases n, 1
  {
    hide Inside;
    InsideOpens(n);
  }

  // ----- from one level to the one below

  lemma ElementUp(s: string, depth: nat, n: Node, rest: string)
    requires Opens(s, 3) && Element(s, depth) == Read(n, rest)
    ensures Repetition(s, depth) == Read(n, rest)
  {
    hide Element;
    assert s[..0] == "" && s[0..] == s;
    assert DigitsLead(s) == 0;
  }

  lemma SpacesNone(s: string)
    requires s == "" || !Space(s[0])
    ensures Spaces(s) == s
  {
  }

  lemma RepetitionUp(s: string, depth: nat, n: Node, rest: string)
    requires Opens(s, 0) && Repetition(s, depth) == Read(n, rest) && Stop(rest, 1)
    ensures Concatenation(s, depth) == Read(n, Spaces(rest))
  {
    hide Repetition;
    SpacesNone(s);
    assert [] + [n] == [n];
    assert Items([n], Spaces(rest), depth) == Read(n, Spaces(rest));
  }

  lemma ConcatenationUp(s: string, depth: nat, n: Node, rest: string)
    requires Concatenation(s, depth) == Read(n, Spaces(rest)) && Stop(rest, 0)
    ensures Alternation(s, depth) == Read(n, Spaces(rest))
  {
    hide Concatenation;
    SpacesNone(Spaces(rest));
  }

  lemma StopDown(rest: string, level: nat)
    requires Stop(rest, level)
    ensures level <= 1 ==> Stop(rest, 1)
    ensures Stop(rest, 2) && Stop(rest, 3)
  {
  }

  /** A reading at one level is one at every level below. */
  lemma Climb(s: string, depth: nat, n: Node, rest: string, from: nat, to: nat)
    requires to <= from <= 3 && Stop(rest, to) && Opens(s, from) && ReadAt(from, s, depth) == Read(n, After(rest, from))
    ensures ReadAt(to, s, depth) == Read(n, After(rest, to))
    decreases from
  {
    hide Element, Repetition, Concatenation, Alternation, Stop;
    if to < from {
      StopDown(rest, to);
      if from == 3 {
        ElementUp(s, depth, n, rest);
      } else if from == 2 {
        RepetitionUp(s, depth, n, rest);
      } else {
        ConcatenationUp(s, depth, n, rest);
      }
      Climb(s, depth, n, rest, from - 1, to);
    }
  }

  // ----- atoms

  lemma {:induction false} NameLeadAll(s: string, rest: string)
    requires (forall i :: 0 <= i < |s| ==> NameChar(s[i])) && TokenStop(rest)
    ensures NameLead(s + rest) == |s|
  {
    if s == "" {
      assert s + rest == rest;
    } else {
      assert (s + rest)[0] == s[0] && (s + rest)[1..] == s[1..] + rest;
      NameLeadAll(s[1..], rest);
    }
  }

  lemma {:induction false} LowerSame(s: string)
    requires forall i :: 0 <= i < |s| ==> !('A' <= s[i] <= 'Z')
    ensures LowerText(s) == s
  {
    if s != "" {
      LowerSame(s[1..]);
      assert s == [s[0]] + s[1..];
    }
  }

  lemma RefBack(name: string, rest: string, depth: nat)
    requires NameText(name) && TokenStop(rest)
    ensures Element(name + rest, depth) == Read(Ref(name), rest)
  {
    hide NameLead, LowerText;
    NameLeadAll(name, rest);
    LowerSame(name);
    var s := name + rest;
    assert s[0] == name[0] && s[..|name|] == name && s[|name|..] == rest;
  }

  lemma {:induction false} QuoteFound(s: string, rest: string)
    requires forall i :: 0 <= i < |s| ==> s[i] != '"'
    ensures QuoteAt(s + "\"" + rest) == |s|
  {
    var t := s + "\"" + rest;
    if s == "" {
      assert t[0] == '"';
    } else {
      assert t[0] == s[0] && t[1..] == s[1..] + "\"" + rest;
      QuoteFound(s[1..], rest);
    }
  }

  lemma QuotedBack(text: string, rest: string, ci: bool)
    requires Printable(text) && forall i :: 0 <= i < |text| ==> text[i] != '"'
    ensures Quoted("\"" + text + "\"" + rest, ci) ==
      if text == "" then Read(Cat([]), rest) else Read(Str(Codes(text), ci && HasLetter(text)), rest)
  {
    var s := "\"" + text + "\"" + rest;
    assert s[1..] == text + "\"" + rest;
    QuoteFound(text, rest);
    assert s[1..1 + |text|] == text && s[|text| + 2..] == rest;
  }

  lemma EmptyBack(rest: string, depth: nat)
    ensures Element("\"\"" + rest, depth) == Read(Cat([]), rest)
  {
    QuotedBack("", rest, true);
    assert "\"" + "" + "\"" + rest == "\"\"" + rest;
  }

  lemma ElementString(s: string, depth: nat)
    requires s != "" && s[0] == '"'
    ensures Element(s, depth) == Quoted(s, true)
  {
    hide Quoted;
  }

  lemma ElementMarked(quoted: string, depth: nat)
    ensures Element("%s" + quoted, depth) == Quoted(quoted, false)
  {
    hide Quoted, Numeric;
    var s := "%s" + quoted;
    assert s[0] == '%' && s[1] == 's' && s[2..] == quoted;
  }

  lemma CharsPlain(cps: seq<int>)
    requires Quotable(cps)
    ensures var text := CharsOf(cps);
            text != "" && Printable(text) && Codes(text) == cps && (forall i :: 0 <= i < |text| ==> text[i] != '"')
            && (HasLetter(text) <==> exists i :: 0 <= i < |cps| && CodeLetter(cps[i]))
  {
    var text := CharsOf(cps);
    assert Codes(text) == cps;
    assert forall i :: 0 <= i < |cps| ==> (Letter(text[i]) <==> CodeLetter(cps[i]));
  }

  lemma QuotableBack(cps: seq<int>, ci: bool, rest: string, depth: nat)
    requires Readable(Str(cps, ci)) && Quotable(cps)
    ensures Element(ShowStr(cps, ci) + rest, depth) == Read(Str(cps, ci), rest)
  {
    hide Element, Quoted, HasLetter, Printable, Codes, CharsOf;
    var text := CharsOf(cps);
    CharsPlain(cps);
    QuotedBack(text, rest, ci);
    var quoted := "\"" + text + "\"" + rest;
    if ci {
      assert ShowStr(cps, ci) + rest == quoted;
      ElementString(quoted, depth);
    } else {
      assert ShowStr(cps, ci) + rest == "%s" + quoted;
      ElementMarked(quoted, depth);
    }
  }

  // ----- numbers

  lemma {:induction false} HexBase(n: nat)
    ensures InBase(HexOf(n), 16) && ValueIn(HexOf(n), 16) == n
  {
    if 16 <= n {
      HexBase(n / 16);
      var s := HexOf(n);
      assert s[..|s| - 1] == HexOf(n / 16) && s[|s| - 1] == HexUpper(n % 16);
      HexUpperIs(n % 16);
    } else {
      HexUpperIs(n);
      assert [HexUpper(n)][..0] == "";
    }
  }

  lemma HexUpperIs(k: int)
    requires 0 <= k < 16
    ensures HexValue(HexUpper(k)) == k
  {
  }

  predicate HexStop(rest: string) {
    rest == "" || HexValue(rest[0]) < 0
  }

  lemma {:induction false} HexLeadAll(s: string, rest: string)
    requires (forall i :: 0 <= i < |s| ==> 0 <= HexValue(s[i])) && HexStop(rest)
    ensures HexLead(s + rest) == |s|
  {
    if s == "" {
      assert s + rest == rest;
    } else {
      assert (s + rest)[0] == s[0] && (s + rest)[1..] == s[1..] + rest;
      HexLeadAll(s[1..], rest);
    }
  }

  /** A run of hexadecimal digits is cut off whole. */
  lemma HexRun(n: nat, rest: string)
    requires HexStop(rest)
    ensures var s := HexOf(n) + rest;
            var k := HexLead(s); 0 < k && s[..k] == HexOf(n) && s[k..] == rest
  {
    HexLeadAll(HexOf(n), rest);
  }

  lemma ElementNumber(body: string, depth: nat)
    ensures Element("%x" + body, depth) == Numeric("%x" + body)
  {
    hide Numeric;
    var s := "%x" + body;
    assert s[0] == '%' && s[1] == 'x';
  }

  /** The first value of a number is cut off whole. */
  lemma NumericFirst(n: nat, rest: string)
    requires n <= TOP && HexStop(rest)
    ensures var s := "%x" + HexOf(n) + rest;
            3 <= |s| && s[0] == '%' && BaseOf(s[1]) == 16 && 0 < HexLead(s[2..]) && s[2..][..HexLead(s[2..])] == HexOf(n)
            && s[2..][HexLead(s[2..])..] == rest && InBase(HexOf(n), 16) && ValueIn(HexOf(n), 16) == n
  {
    hide HexOf, HexLead, InBase, ValueIn;
    var s := "%x" + HexOf(n) + rest;
    assert s[0] == '%' && s[1] == 'x' && s[2..] == HexOf(n) + rest;
    HexRun(n, rest);
    HexBase(n);
  }

  lemma NumericRange(lo: nat, hi: nat, rest: string)
    requires lo <= hi <= TOP && HexStop(rest)
    ensures Numeric("%x" + HexOf(lo) + ("-" + (HexOf(hi) + rest))) == Read(Cls([Range(lo, hi)]), rest)
  {
    hide HexOf, HexLead, InBase, ValueIn, Pointed;
    var behind := "-" + (HexOf(hi) + rest);
    assert behind[0] == '-' && behind[1..] == HexOf(hi) + rest;
    NumericFirst(lo, behind);
    HexRun(hi, rest);
    HexBase(hi);
  }

  lemma ClsBack(lo: nat, hi: nat, rest: string, depth: nat)
    requires lo <= hi <= TOP && TokenStop(rest)
    ensures Element("%x" + HexOf(lo) + "-" + HexOf(hi) + rest, depth) == Read(Cls([Range(lo, hi)]), rest)
  {
    hide Element, Numeric, HexOf;
    var body := HexOf(lo) + ("-" + (HexOf(hi) + rest));
    assert "%x" + HexOf(lo) + "-" + HexOf(hi) + rest == "%x" + body;
    assert "%x" + HexOf(lo) + ("-" + (HexOf(hi) + rest)) == "%x" + body;
    NumericRange(lo, hi, rest);
    ElementNumber(body, depth);
  }

  lemma PointsStop(cps: seq<int>, rest: string)
    requires (forall i :: 0 <= i < |cps| ==> 0 <= cps[i]) && TokenStop(rest)
    ensures HexStop(Points(cps) + rest) && (Points(cps) + rest != "" ==> (Points(cps) + rest)[0] != '-')
  {
  }

  lemma PointStep(ns: seq<int>, n: nat, more: string)
    requires n <= TOP && HexStop(more)
    ensures Pointed(ns, "." + (HexOf(n) + more), 16) == Pointed(ns + [n], more, 16)
  {
    hide HexOf, HexLead, InBase, ValueIn;
    var s := "." + (HexOf(n) + more);
    assert s[0] == '.' && s[1..] == HexOf(n) + more;
    HexRun(n, more);
    HexBase(n);
  }

  lemma PointsHead(cps: seq<int>, rest: string)
    requires cps != [] && forall i :: 0 <= i < |cps| ==> 0 <= cps[i]
    ensures Points(cps) + rest == "." + (HexOf(cps[0]) + (Points(cps[1..]) + rest))
  {
    hide HexOf;
    Glue("." + HexOf(cps[0]), Points(cps[1..]), rest);
    Glue(".", HexOf(cps[0]), Points(cps[1..]) + rest);
  }

  lemma NoPoints(rest: string)
    ensures Points([]) + rest == rest
  {
  }

  lemma PointsNone(ns: seq<int>, rest: string)
    requires TokenStop(rest)
    ensures Pointed(ns, rest, 16) == Values(ns, rest)
  {
  }

  lemma {:induction false} PointsBack(ns: seq<int>, cps: seq<int>, rest: string)
    requires (forall i :: 0 <= i < |cps| ==> 0 <= cps[i] <= TOP) && TokenStop(rest)
    ensures Pointed(ns, Points(cps) + rest, 16) == Values(ns + cps, rest)
    decreases |cps|
  {
    hide HexOf, Pointed, Points;
    if cps == [] {
      NoPoints(rest);
      assert ns + cps == ns;
      PointsNone(ns, rest);
    } else {
      PointsStop(cps[1..], rest);
      PointsHead(cps, rest);
      PointStep(ns, cps[0], Points(cps[1..]) + rest);
      PointsBack(ns + [cps[0]], cps[1..], rest);
      assert (ns + [cps[0]]) + cps[1..] == ns + cps;
    }
  }

  lemma NumericSequence(cps: seq<int>, rest: string)
    requires 2 <= |cps| && (forall i :: 0 <= i < |cps| ==> 0 <= cps[i] <= TOP) && TokenStop(rest)
    ensures Numeric("%x" + HexOf(cps[0]) + (Points(cps[1..]) + rest)) == Read(Str(cps, false), rest)
  {
    hide HexOf, HexLead, InBase, ValueIn, Pointed, Points;
    var behind := Points(cps[1..]) + rest;
    PointsStop(cps[1..], rest);
    NumericFirst(cps[0], behind);
    PointsBack([cps[0]], cps[1..], rest);
    assert [cps[0]] + cps[1..] == cps;
  }

  lemma SequenceBack(cps: seq<int>, rest: string, depth: nat)
    requires 2 <= |cps| && (forall i :: 0 <= i < |cps| ==> 0 <= cps[i] <= TOP) && TokenStop(rest)
    ensures Element("%x" + HexOf(cps[0]) + Points(cps[1..]) + rest, depth) == Read(Str(cps, false), rest)
  {
    hide Element, Numeric, HexOf, Points;
    var body := HexOf(cps[0]) + (Points(cps[1..]) + rest);
    assert "%x" + HexOf(cps[0]) + Points(cps[1..]) + rest == "%x" + body;
    assert "%x" + HexOf(cps[0]) + (Points(cps[1..]) + rest) == "%x" + body;
    NumericSequence(cps, rest);
    ElementNumber(body, depth);
  }

  lemma AtomBack(n: Node, rest: string, depth: nat)
    requires Readable(n) && Rank(n) == 3 && TokenStop(rest)
    ensures Element(Inside(n) + rest, depth) == Read(n, rest)
  {
    hide Element, Quotable, HexOf, Points, NameText;
    match n
    case Cat(_) => EmptyBack(rest, depth);
    case Ref(name) => RefBack(name, rest, depth);
    case Str(cps, ci) =>
      if Quotable(cps) { QuotableBack(cps, ci, rest, depth); } else { SequenceBack(cps, rest, depth); }
    case Cls(chars) =>
      ClsBack(chars[0].lo, chars[0].hi, rest, depth);
      assert chars == [Range(chars[0].lo, chars[0].hi)];
  }

  // ----- bounds

  lemma {:induction false} DigitsLeadAll(s: string, rest: string)
    requires IsDigits(s) && (rest == "" || !Digit10(rest[0]))
    ensures DigitsLead(s + rest) == |s|
  {
    if s == "" {
      assert s + rest == rest;
    } else {
      assert (s + rest)[0] == s[0] && (s + rest)[1..] == s[1..] + rest;
      DigitsLeadAll(s[1..], rest);
    }
  }

  lemma {:induction false} DigitsFew(n: nat, k: nat)
    requires 0 < k && n < Tens(k)
    ensures |DigitsOf(n)| <= k
  {
    assert Tens(1) == 10;
    if 10 <= n && 1 < k { DigitsFew(n / 10, k - 1); }
  }

  lemma NineDigits(n: nat)
    requires n <= REPEAT_MAX
    ensures |DigitsOf(n)| <= 9
  {
    assert Tens(3) == 1000;
    assert Tens(6) == 1000000;
    assert Tens(9) == 1000000000;
    DigitsFew(n, 9);
  }

  lemma BoundsOf(t: string, behind: string, u: string, d: string, e: string, rest: string)
    requires IsDigits(d) && IsDigits(e) && d != "" && |d| <= REPEAT_DIGITS && |e| <= REPEAT_DIGITS
    requires e == "" || ReadDigits(d) <= ReadDigits(e)
    requires DigitsLead(t) == |d| && t[..|d|] == d && t[|d|..] == behind && behind != "" && behind[0] == '*' && behind[1..] == u
    requires DigitsLead(u) == |e| && u[..|e|] == e && u[|e|..] == rest
    ensures Bounds(t) == Repeat(ReadDigits(d), if e == "" then -1 else ReadDigits(e), rest)
  {
    hide ReadDigits, DigitsLead, IsDigits;
  }

  /** Bounds of a text cut at its star. */
  lemma BoundsCut(d: string, e: string, rest: string)
    requires IsDigits(d) && IsDigits(e) && d != "" && |d| <= REPEAT_DIGITS && |e| <= REPEAT_DIGITS
    requires rest != "" && !Digit10(rest[0])
    requires e == "" || ReadDigits(d) <= ReadDigits(e)
    ensures Bounds(d + "*" + e + rest) == Repeat(ReadDigits(d), if e == "" then -1 else ReadDigits(e), rest)
  {
    hide ReadDigits, DigitsLead, IsDigits, Bounds;
    var t, behind := d + "*" + e + rest, "*" + (e + rest);
    assert t == d + behind;
    DigitsLeadAll(d, behind);
    CutAt(d, behind);
    CutAt("*", e + rest);
    DigitsLeadAll(e, rest);
    CutAt(e, rest);
    BoundsOf(t, behind, e + rest, d, e, rest);
  }

  lemma CutAt(a: string, b: string)
    ensures (a + b)[..|a|] == a && (a + b)[|a|..] == b
  {
  }

  lemma BoundsBack(min: nat, max: int, s: string)
    requires min <= REPEAT_MAX && max <= REPEAT_MAX && (max < 0 ==> max == -1) && (max < 0 || min <= max)
    requires s != "" && !Digit10(s[0])
    ensures Bounds(ShowBounds(min, max) + s) == Repeat(min, max, s)
  {
    hide DigitsOf, ReadDigits, Bounds, IsDigits;
    NineDigits(min);
    ReadOf(min);
    if 0 <= max {
      NineDigits(max);
      ReadOf(max);
      BoundsCut(DigitsOf(min), DigitsOf(max), s);
    } else {
      NoDigits();
      BoundsCut(DigitsOf(min), "", s);
    }
  }

  lemma NoDigits()
    ensures IsDigits("")
  {
  }

  // ----- the whole

  lemma Glue(a: string, b: string, c: string)
    ensures (a + b) + c == a + (b + c)
  {
  }

  ghost predicate AllReadable(kids: seq<Node>, level: nat, depth: nat) {
    forall i :: 0 <= i < |kids| ==> Fits(kids[i], level, depth)
  }

  lemma TailReadable(kids: seq<Node>, level: nat, depth: nat)
    requires AllReadable(kids, level, depth) && kids != []
    ensures AllReadable(kids[1..], level, depth)
  {
    hide Fits;
    assert forall i :: 0 <= i < |kids[1..]| ==> kids[1..][i] == kids[i + 1];
  }

  lemma {:induction false} KidsFit(kids: seq<Node>, level: nat, depth: nat)
    requires (forall i :: 0 <= i < |kids| ==> Readable(kids[i])) && NestAll(kids, level) + depth <= NEST_MAX
    ensures AllReadable(kids, level, depth)
  {
    hide Readable, Nest;
    if kids != [] {
      assert forall i :: 0 <= i < |kids[1..]| ==> kids[1..][i] == kids[i + 1];
      KidsFit(kids[1..], level, depth);
      forall i | 0 <= i < |kids| ensures Fits(kids[i], level, depth) {
        if 0 < i { assert kids[i] == kids[1..][i - 1]; }
      }
    }
  }

  lemma ReadableOf(n: Node, level: nat, depth: nat)
    requires Fits(n, level, depth)
    ensures Readable(n) && depth <= NEST_MAX
  {
  }

  lemma AllShown(kids: seq<Node>, level: nat, depth: nat)
    requires AllReadable(kids, level, depth)
    ensures forall i :: 0 <= i < |kids| ==> Readable(kids[i])
  {
  }

  /** A node's text at a level, with whatever may follow, reads as the node. */
  lemma {:induction false} Back(n: Node, level: nat, rest: string, depth: nat)
    requires Fits(n, level, depth) && level <= 3 && Stop(rest, level)
    ensures Readable(n) && ReadAt(level, Show(n, level) + rest, depth) == Read(n, After(rest, level))
    decreases n, level, 2
  {
    hide ReadAt, Element, Repetition, Concatenation, Alternation, Stop, Inside, NestIn, Readable;
    ReadableOf(n, level, depth);
    StopDown(rest, level);
    StopToken(rest, level);
    if level == 3 && Optional(n) {
      OptionBack(n, rest, depth);
    } else if Rank(n) < level {
      GroupNest(n, level, depth);
      StopClose(")", rest);
      Back(n, 0, ")" + rest, depth + 1);
      GroupBack(n, level, rest, depth);
    } else {
      InsideBack(n, level, rest, depth);
    }
  }

  lemma StopToken(rest: string, level: nat)
    requires Stop(rest, level)
    ensures TokenStop(rest)
  {
  }

  lemma StopClose(close: string, rest: string)
    requires close == ")" || close == "]"
    ensures Stop(close + rest, 0) && Spaces(close + rest) == close + rest
  {
    assert (close + rest)[0] == close[0];
  }

  lemma GroupNest(n: Node, level: nat, depth: nat)
    requires Fits(n, level, depth) && Rank(n) < level <= 3 && !(level == 3 && Optional(n))
    ensures Fits(n, 0, depth + 1) && depth + 1 <= NEST_MAX
  {
    hide Readable;
  }

  /** A bracket opens an element, and its closer ends it. */
  lemma BracketBack(n: Node, text: string, rest: string, depth: nat, open: string, close: string)
    requires (open == "(" && close == ")") || (open == "[" && close == "]")
    requires depth < NEST_MAX && Alternation(text + (close + rest), depth + 1) == Read(n, close + rest)
    ensures Element(open + text + close + rest, depth) == Read(if open == "(" then n else Rep(n, 0, 1), rest)
  {
    hide Alternation;
    var s := open + text + close + rest;
    assert s[0] == open[0] && s[1..] == text + (close + rest);
    assert (close + rest)[0] == close[0] && (close + rest)[1..] == rest;
  }

  lemma GroupBack(n: Node, level: nat, rest: string, depth: nat)
    requires Readable(n) && Rank(n) < level <= 3 && !(level == 3 && Optional(n)) && Stop(rest, level) && depth < NEST_MAX
    requires ReadAt(0, Show(n, 0) + (")" + rest), depth + 1) == Read(n, After(")" + rest, 0))
    ensures ReadAt(level, Show(n, level) + rest, depth) == Read(n, After(rest, level))
  {
    hide Element, Repetition, Concatenation, Alternation, Stop, Inside, Readable, Opens;
    StopClose(")", rest);
    BracketBack(n, Show(n, 0), rest, depth, "(", ")");
    var s := Show(n, level) + rest;
    assert s == "(" + Show(n, 0) + ")" + rest;
    assert Opens(s, 3) by { OpensGroup(s); }
    Climb(s, depth, n, rest, 3, level);
  }

  lemma OpensGroup(s: string)
    requires s != "" && (s[0] == '(' || s[0] == '[')
    ensures Opens(s, 3)
  {
  }

  lemma OptionalKid(n: Node, depth: nat)
    requires Fits(n, 3, depth) && Optional(n)
    ensures Fits(n.kid, 0, depth + 1) && depth < NEST_MAX && n == Rep(n.kid, 0, 1)
  {
  }

  lemma {:induction false} OptionBack(n: Node, rest: string, depth: nat)
    requires Fits(n, 3, depth) && Optional(n) && TokenStop(rest)
    ensures Readable(n) && ReadAt(3, Show(n, 3) + rest, depth) == Read(n, After(rest, 3))
    decreases n, 3, 0
  {
    hide Element, Alternation, Stop, Inside, Nest, Readable;
    ReadableOf(n, 3, depth);
    OptionalKid(n, depth);
    StopClose("]", rest);
    Back(n.kid, 0, "]" + rest, depth + 1);
    BracketBack(n.kid, Show(n.kid, 0), rest, depth, "[", "]");
  }

  /** A node's own text, at its own level or one below. */
  lemma {:induction false} InsideBack(n: Node, level: nat, rest: string, depth: nat)
    requires Fits(n, level, depth) && level <= Rank(n) && !(level == 3 && Optional(n)) && Stop(rest, level)
    ensures Readable(n) && ReadAt(level, Show(n, level) + rest, depth) == Read(n, After(rest, level))
    decreases n, level, 1
  {
    hide Element, Repetition, Concatenation, Alternation, Inside, Opens, Stop, Readable;
    ReadableOf(n, level, depth);
    StopDown(rest, level);
    StopToken(rest, level);
    var s := Inside(n) + rest;
    InsideOpens(n);
    OpensOn(Inside(n), rest, if Rank(n) == 3 then 3 else 0);
    if Rank(n) == 3 {
      AtomBack(n, rest, depth);
      Climb(s, depth, n, rest, 3, level);
    } else if Rank(n) == 2 {
      RepBack(n, rest, depth);
      OpensLow(s, 2);
      Climb(s, depth, n, rest, 2, level);
    } else if Rank(n) == 1 {
      CatBack(n, rest, depth);
      OpensLow(s, 1);
      Climb(s, depth, n, rest, 1, level);
    } else {
      AltBack(n, rest, depth);
    }
  }

  lemma OpensLow(s: string, level: nat)
    requires Opens(s, 0) && level < 3
    ensures Opens(s, level)
  {
  }

  lemma RepKid(n: Node, depth: nat)
    requires Readable(n) && n.Rep? && NestIn(n) + depth <= NEST_MAX
    ensures Fits(n.kid, 3, depth)
    ensures n.min <= REPEAT_MAX && n.max <= REPEAT_MAX && (n.max < 0 ==> n.max == -1) && (n.max < 0 || n.min <= n.max)
    ensures !(n.min == 1 && n.max == 1) && n == Rep(n.kid, n.min, n.max)
  {
  }

  lemma RepStep(s: string, depth: nat, min: nat, max: int, kid: Node, body: string, rest: string)
    requires Bounds(s) == Repeat(min, max, body) && Element(body, depth) == Read(kid, rest) && !(min == 1 && max == 1)
    ensures Repetition(s, depth) == Read(Rep(kid, min, max), rest)
  {
    hide Bounds, Element;
  }

  lemma {:induction false} RepBack(n: Node, rest: string, depth: nat)
    requires Readable(n) && n.Rep? && NestIn(n) + depth <= NEST_MAX && Stop(rest, 3)
    ensures ReadAt(2, Inside(n) + rest, depth) == Read(n, rest)
    decreases n, 0, 0
  {
    hide Element, Repetition, Bounds, Opens, Stop, Readable, Nest, Show, ShowBounds;
    RepKid(n, depth);
    ReadableOf(n.kid, 3, depth);
    var body := Show(n.kid, 3) + rest;
    Back(n.kid, 3, rest, depth);
    ShowOpens(n.kid, 3);
    OpensOn(Show(n.kid, 3), rest, 3);
    assert body != "" && !Digit10(body[0]) by { OpensFirst(body); }
    BoundsBack(n.min, n.max, body);
    InsideRep(n);
    Glue(ShowBounds(n.min, n.max), Show(n.kid, 3), rest);
    RepStep(Inside(n) + rest, depth, n.min, n.max, n.kid, body, rest);
  }

  lemma InsideRep(n: Node)
    requires Readable(n) && n.Rep?
    ensures Readable(n.kid) && Inside(n) == ShowBounds(n.min, n.max) + Show(n.kid, 3)
  {
  }

  lemma OpensFirst(s: string)
    requires Opens(s, 3)
    ensures s != "" && !Digit10(s[0])
  {
  }

  lemma CatKids(n: Node, depth: nat)
    requires Readable(n) && n.Cat? && n.kids != [] && NestIn(n) + depth <= NEST_MAX
    ensures 2 <= |n.kids| && AllReadable(n.kids, 2, depth)
  {
    hide Nest, NestAll;
    KidsFit(n.kids, 2, depth);
  }

  lemma AltKids(n: Node, depth: nat)
    requires Readable(n) && n.Alt? && NestIn(n) + depth <= NEST_MAX
    ensures 2 <= |n.kids| && AllReadable(n.kids, 1, depth)
  {
    hide Nest, NestAll;
    KidsFit(n.kids, 1, depth);
  }

  lemma {:induction false} CatBack(n: Node, rest: string, depth: nat)
    requires Readable(n) && n.Cat? && n.kids != [] && NestIn(n) + depth <= NEST_MAX && Stop(rest, 1)
    ensures ReadAt(1, Inside(n) + rest, depth) == Read(n, Spaces(rest))
    decreases n, 0, 0
  {
    hide Items, Stop, Opens, Nest, NestIn, Inside, Readable, AllReadable;
    CatKids(n, depth);
    InsideCat(n);
    ItemsBack([], n.kids, rest, depth);
    InsideOpens(n);
    OpensOn(Inside(n), rest, 0);
    assert [] + n.kids == n.kids;
    var s := Inside(n) + rest;
    assert Spaces(s) == s by { OpensSpace(s); }
  }

  lemma InsideCat(n: Node)
    requires Readable(n) && n.Cat? && n.kids != []
    ensures (forall i :: 0 <= i < |n.kids| ==> Readable(n.kids[i])) && Inside(n) == ShowAll(n.kids, 2, " ")
  {
  }

  lemma InsideAlt(n: Node)
    requires Readable(n) && n.Alt?
    ensures (forall i :: 0 <= i < |n.kids| ==> Readable(n.kids[i])) && Inside(n) == ShowAll(n.kids, 1, " / ")
  {
  }

  lemma OpensSpace(s: string)
    requires Opens(s, 0)
    ensures Spaces(s) == s && !Ends(s)
  {
  }

  /** What ShowAll writes of its first, and behind it. */
  function Behind(kids: seq<Node>, level: nat, sep: string, rest: string): string
    requires kids != [] && forall i :: 0 <= i < |kids| ==> Readable(kids[i])
  {
    if |kids| == 1 then rest else sep + (ShowAll(kids[1..], level, sep) + rest)
  }

  lemma ShowAllHead(kids: seq<Node>, level: nat, sep: string, rest: string)
    requires kids != [] && forall i :: 0 <= i < |kids| ==> Readable(kids[i])
    ensures ShowAll(kids, level, sep) + rest == Show(kids[0], level) + Behind(kids, level, sep, rest)
  {
    hide Show, Readable;
    if |kids| == 1 {
      assert Show(kids[0], level) + "" == Show(kids[0], level);
    } else {
      var tail := ShowAll(kids[1..], level, sep);
      Glue(Show(kids[0], level), sep + tail, rest);
      Glue(sep, tail, rest);
    }
  }

  lemma ShowAllOpens(kids: seq<Node>, level: nat, sep: string, rest: string)
    requires kids != [] && (forall i :: 0 <= i < |kids| ==> Readable(kids[i])) && level <= 3
    ensures Opens(ShowAll(kids, level, sep) + rest, 0)
  {
    hide Show, Readable;
    ShowOpens(kids[0], level);
    ShowAllHead(kids, level, sep, rest);
    OpensOn(Show(kids[0], level), Behind(kids, level, sep, rest), level);
  }

  lemma SpaceOff(s: string)
    ensures Spaces(" " + s) == Spaces(s)
  {
    assert (" " + s)[1..] == s;
  }

  lemma ItemsStep(items: seq<Node>, s: string, depth: nat, n: Node, rest: string)
    requires !Ends(s) && Repetition(s, depth) == Read(n, rest)
    ensures Items(items, s, depth) == Items(items + [n], Spaces(rest), depth)
  {
    hide Repetition;
  }

  lemma ItemsEnd(items: seq<Node>, s: string, depth: nat)
    requires Ends(s) && items != []
    ensures Items(items, s, depth) == Read(OneOr(items, false), s)
  {
  }

  lemma StopSpace(s: string)
    ensures TokenStop(" " + s) && Stop(" " + s, 2)
  {
  }

  lemma {:induction false} ItemsBack(items: seq<Node>, kids: seq<Node>, rest: string, depth: nat)
    requires kids != [] && AllReadable(kids, 2, depth) && Stop(rest, 1)
    ensures forall i :: 0 <= i < |kids| ==> Readable(kids[i])
    ensures Items(items, ShowAll(kids, 2, " ") + rest, depth) == Read(OneOr(items + kids, false), Spaces(rest))
    decreases kids
  {
    hide Items, Repetition, Stop, Opens, Nest, Readable, Show, ShowAll, Fits, Spaces;
    AllShown(kids, 2, depth);
    var s := ShowAll(kids, 2, " ") + rest;
    ShowAllOpens(kids, 2, " ", rest);
    OpensSpace(s);
    ShowAllHead(kids, 2, " ", rest);
    var behind := Behind(kids, 2, " ", rest);
    if |kids| == 1 {
      StopDown(rest, 1);
      Back(kids[0], 2, rest, depth);
      ItemsStep(items, s, depth, kids[0], rest);
      assert Ends(Spaces(rest)) by { StopEnds(rest); }
      ItemsEnd(items + [kids[0]], Spaces(rest), depth);
      assert items + kids == items + [kids[0]];
    } else {
      var more := ShowAll(kids[1..], 2, " ") + rest;
      StopSpace(more);
      Back(kids[0], 2, " " + more, depth);
      ItemsStep(items, s, depth, kids[0], " " + more);
      SpaceOff(more);
      TailReadable(kids, 2, depth);
      AllShown(kids[1..], 2, depth);
      ShowAllOpens(kids[1..], 2, " ", rest);
      OpensSpace(more);
      ItemsBack(items + [kids[0]], kids[1..], rest, depth);
      assert (items + [kids[0]]) + kids[1..] == items + kids;
    }
  }

  lemma StopEnds(rest: string)
    requires Stop(rest, 1)
    ensures Ends(Spaces(rest))
  {
  }

  lemma ConcatenationSpace(s: string, depth: nat)
    ensures Concatenation(" " + s, depth) == Concatenation(s, depth)
  {
    hide Items;
    SpaceOff(s);
  }

  lemma AltsStep(alts: seq<Node>, s: string, depth: nat, n: Node, rest: string)
    requires alts != [] && Concatenation(s, depth) == Read(n, rest)
    ensures Alternatives(alts, "/" + s, depth) == Alternatives(alts + [n], Spaces(rest), depth)
  {
    hide Concatenation;
    assert ("/" + s)[1..] == s;
  }

  lemma AltsEnd(alts: seq<Node>, s: string, depth: nat)
    requires alts != [] && (s == "" || s[0] != '/')
    ensures Alternatives(alts, s, depth) == Read(OneOr(alts, true), s)
  {
  }

  lemma StopBar(s: string)
    ensures Stop(" / " + s, 1) && Spaces(" / " + s) == "/ " + s && Spaces("/ " + s) == "/ " + s
  {
    assert (" / " + s)[1..] == "/ " + s;
  }

  lemma StopNoBar(rest: string)
    requires Stop(rest, 0)
    ensures Stop(rest, 1) && (Spaces(rest) == "" || Spaces(rest)[0] != '/') && Spaces(Spaces(rest)) == Spaces(rest)
  {
    SpacesNone(Spaces(rest));
  }

  /** The alternatives from one on, read behind those before. */
  lemma {:induction false} AltsBack(alts: seq<Node>, kids: seq<Node>, rest: string, depth: nat)
    requires kids != [] && AllReadable(kids, 1, depth) && Stop(rest, 0) && alts != []
    ensures forall i :: 0 <= i < |kids| ==> Readable(kids[i])
    ensures Alternatives(alts, "/ " + (ShowAll(kids, 1, " / ") + rest), depth) == Read(OneOr(alts + kids, true), Spaces(rest))
    decreases kids
  {
    hide Alternatives, Concatenation, Stop, Opens, Nest, Readable, Show, ShowAll, Fits, Spaces, AllReadable, OneOr;
    AllShown(kids, 1, depth);
    FirstFits(kids, 1, depth);
    var s := ShowAll(kids, 1, " / ") + rest;
    ShowAllHead(kids, 1, " / ", rest);
    ConcatenationSpace(s, depth);
    assert "/ " + s == "/" + (" " + s);
    if |kids| == 1 {
      StopNoBar(rest);
      Back(kids[0], 1, rest, depth);
      AltsStep(alts, " " + s, depth, kids[0], Spaces(rest));
      AltsEnd(alts + [kids[0]], Spaces(rest), depth);
      assert alts + kids == alts + [kids[0]];
    } else {
      var more := ShowAll(kids[1..], 1, " / ") + rest;
      StopBar(more);
      Back(kids[0], 1, " / " + more, depth);
      AltsStep(alts, " " + s, depth, kids[0], "/ " + more);
      TailReadable(kids, 1, depth);
      AltsBack(alts + [kids[0]], kids[1..], rest, depth);
      assert (alts + [kids[0]]) + kids[1..] == alts + kids;
    }
  }

  lemma AlternationStep(s: string, depth: nat, n: Node, rest: string)
    requires Concatenation(s, depth) == Read(n, rest)
    ensures Alternation(s, depth) == Alternatives([n], Spaces(rest), depth)
  {
    hide Concatenation, Alternatives;
  }

  lemma {:induction false} AltBack(n: Node, rest: string, depth: nat)
    requires Readable(n) && n.Alt? && NestIn(n) + depth <= NEST_MAX && Stop(rest, 0)
    ensures ReadAt(0, Inside(n) + rest, depth) == Read(n, Spaces(rest))
    decreases n, 0, 0
  {
    hide Alternatives, Concatenation, Alternation, Stop, Opens, Nest, NestIn, Inside, Readable, Show, ShowAll, Fits, Spaces;
    AltKids(n, depth);
    InsideAlt(n);
    var kids := n.kids;
    var more := ShowAll(kids[1..], 1, " / ") + rest;
    ShowAllHead(kids, 1, " / ", rest);
    StopBar(more);
    FirstFits(kids, 1, depth);
    Back(kids[0], 1, " / " + more, depth);
    AlternationStep(Inside(n) + rest, depth, kids[0], "/ " + more);
    TailReadable(kids, 1, depth);
    AltsBack([kids[0]], kids[1..], rest, depth);
    assert [kids[0]] + kids[1..] == kids;
  }

  lemma FirstFits(kids: seq<Node>, level: nat, depth: nat)
    requires AllReadable(kids, level, depth) && kids != []
    ensures Fits(kids[0], level, depth)
  {
  }

  /** fReadElements reads exactly the readable nodes: each from its canonical text, and no other. */
  lemma ElementsBack(n: Node)
    ensures Fits(n, 0, 0) ==> Readable(n) && Elements(Show(n, 0)) == Read(n, "")
    ensures Fits(n, 0, 0) <==> exists s :: Elements(s) == Read(n, "")
  {
    hide Fits, Alternation, Show, Readable;
    if Fits(n, 0, 0) {
      ReadableOf(n, 0, 0);
      NothingStops();
      Back(n, 0, "", 0);
      assert Show(n, 0) + "" == Show(n, 0);
    }
    if s :| Elements(s) == Read(n, "") {
      ElementsReadable(s);
    }
  }

  lemma NothingStops()
    ensures Stop("", 0) && Spaces("") == ""
  {
  }
}
