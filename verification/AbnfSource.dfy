/**
 Grammars written and read whole (go/formatgrammar.go:122-240): a grammar's canonical text reads
 back as its definitions.
 */
module AbnfSource {
  import opened Options
  import opened Grammar
  import opened Patience
  import opened UnifiedDiff
  import opened AbnfText
  import opened AbnfShown
  import opened AbnfBack
  import opened AbnfRules

  // ----- text no comment cuts

  /** Whether a text leaves a quote open. */
  function State(s: string, quote: char): char {
    if s == "" then quote else State(s[1..], QuoteOn(s[0], quote))
  }

  /** Text on one line that no semicolon cuts and that closes its quotes. */
  ghost predicate Calm(s: string) {
    (forall i :: 0 <= i < |s| ==> s[i] != '\n' && s[i] != '\r') && Kept(s, '\0') == |s| && State(s, '\0') == '\0'
  }

  ghost predicate Closes(s: string) {
    s != "" && !Space(s[|s| - 1])
  }

  lemma {:induction false} KeptAppend(a: string, b: string, quote: char)
    requires Kept(a, quote) == |a|
    ensures Kept(a + b, quote) == |a| + Kept(b, State(a, quote)) && State(a + b, quote) == State(b, State(a, quote))
  {
    if a == "" {
      assert a + b == b;
    } else {
      assert (a + b)[0] == a[0] && (a + b)[1..] == a[1..] + b;
      KeptAppend(a[1..], b, QuoteOn(a[0], quote));
    }
  }

  lemma CalmAppend(a: string, b: string)
    requires Calm(a) && Calm(b)
    ensures Calm(a + b)
  {
    KeptAppend(a, b, '\0');
  }

  lemma ClosesAppend(a: string, b: string)
    requires Closes(b)
    ensures Closes(a + b)
  {
    assert (a + b)[|a + b| - 1] == b[|b| - 1];
  }

  predicate PlainChar(c: char) {
    c != '"' && c != '<' && c != ';' && c != '\n' && c != '\r'
  }

  lemma {:induction false} PlainCalm(s: string)
    requires forall i :: 0 <= i < |s| ==> PlainChar(s[i])
    ensures Calm(s)
  {
    if s != "" {
      assert forall i :: 0 <= i < |s[1..]| ==> s[1..][i] == s[i + 1];
      PlainCalm(s[1..]);
    }
  }

  lemma {:induction false} QuoteCalm(text: string)
    requires forall i :: 0 <= i < |text| ==> text[i] != '"'
    ensures Kept(text + "\"", '"') == |text| + 1 && State(text + "\"", '"') == '\0'
  {
    var s := text + "\"";
    if text == "" {
      assert s[0] == '"' && s[1..] == "";
    } else {
      assert s[0] == text[0] && s[1..] == text[1..] + "\"";
      QuoteCalm(text[1..]);
    }
  }

  lemma QuotedCalm(text: string)
    requires Printable(text) && forall i :: 0 <= i < |text| ==> text[i] != '"'
    ensures Calm("\"" + text + "\"") && Closes("\"" + text + "\"")
  {
    var s := "\"" + text + "\"";
    assert s[0] == '"' && s[1..] == text + "\"";
    QuoteCalm(text);
    forall i | 0 <= i < |s| ensures s[i] != '\n' && s[i] != '\r' {
      if 0 < i <= |text| { assert s[i] == text[i - 1]; }
    }
  }

  // ----- shown nodes

  lemma {:induction false} HexPlain(n: nat)
    ensures forall i :: 0 <= i < |HexOf(n)| ==> PlainChar(HexOf(n)[i]) && !Space(HexOf(n)[i])
  {
  }

  lemma HexCalm(n: nat)
    ensures Calm(HexOf(n)) && Closes(HexOf(n))
  {
    HexPlain(n);
    PlainCalm(HexOf(n));
  }

  lemma {:induction false} PointsCalm(cps: seq<int>)
    requires forall i :: 0 <= i < |cps| ==> 0 <= cps[i]
    ensures Calm(Points(cps)) && (cps != [] ==> Closes(Points(cps)))
  {
    hide HexOf, Calm;
    if cps == [] {
      PlainCalm("");
    } else {
      PointsCalm(cps[1..]);
      HexCalm(cps[0]);
      PlainCalm(".");
      CalmAppend(".", HexOf(cps[0]));
      CalmAppend("." + HexOf(cps[0]), Points(cps[1..]));
      ClosesAppend(".", HexOf(cps[0]));
      if cps[1..] != [] { ClosesAppend("." + HexOf(cps[0]), Points(cps[1..])); } else { assert Points([]) == ""; }
    }
  }

  lemma StrCalm(cps: seq<int>, ci: bool)
    requires Readable(Str(cps, ci))
    ensures Calm(ShowStr(cps, ci)) && Closes(ShowStr(cps, ci))
  {
    hide HexOf, Calm, Points, Closes, Printable, CharsOf;
    if Quotable(cps) {
      var text := CharsOf(cps);
      CharsPlain(cps);
      QuotedCalm(text);
      PlainCalm("%s");
      var quoted := "\"" + text + "\"";
      CalmAppend("%s", quoted);
      ClosesAppend("%s", quoted);
      assert "%s" + "\"" + text + "\"" == "%s" + quoted && "" + "\"" + text + "\"" == quoted;
    } else {
      PlainCalm("%x");
      HexCalm(cps[0]);
      PointsCalm(cps[1..]);
      CalmAppend("%x", HexOf(cps[0]));
      CalmAppend("%x" + HexOf(cps[0]), Points(cps[1..]));
      ClosesAppend("%x" + HexOf(cps[0]), Points(cps[1..]));
    }
  }

  lemma ClsCalm(lo: nat, hi: nat)
    ensures Calm("%x" + HexOf(lo) + "-" + HexOf(hi)) && Closes("%x" + HexOf(lo) + "-" + HexOf(hi))
  {
    hide HexOf, Calm, Closes;
    PlainCalm("%x");
    PlainCalm("-");
    HexCalm(lo);
    HexCalm(hi);
    CalmAppend("%x", HexOf(lo));
    CalmAppend("%x" + HexOf(lo), "-");
    CalmAppend("%x" + HexOf(lo) + "-", HexOf(hi));
    ClosesAppend("%x" + HexOf(lo) + "-", HexOf(hi));
  }

  lemma BoundsCalm(min: nat, max: int)
    ensures Calm(ShowBounds(min, max))
  {
    PlainCalm(ShowBounds(min, max));
  }

  lemma NameCalm(name: string)
    requires name != "" && forall i :: 0 <= i < |name| ==> NameChar(name[i])
    ensures Calm(name) && Closes(name)
  {
    PlainCalm(name);
  }

  lemma {:induction false} InsideCalm(n: Node)
    requires Readable(n)
    ensures Calm(Inside(n)) && Closes(Inside(n))
    decreases n, 0
  {
    hide Calm, Closes, ShowStr, HexOf, ShowBounds, Show, NameText;
    match n
    case Alt(kids) =>
      PlainCalm(" / ");
      AllCalm(kids, 1, " / ");
    case Cat(kids) =>
      if kids == [] {
        QuotedCalm("");
        assert "\"" + "" + "\"" == "\"\"";
      } else {
        PlainCalm(" ");
        AllCalm(kids, 2, " ");
      }
    case Rep(kid, min, max) =>
      BoundsCalm(min, max);
      ShowCalm(kid, 3);
      CalmAppend(ShowBounds(min, max), Show(kid, 3));
      ClosesAppend(ShowBounds(min, max), Show(kid, 3));
    case Ref(name) => NameReads(name);
    case Str(cps, ci) => StrCalm(cps, ci);
    case Cls(chars) => ClsCalm(chars[0].lo, chars[0].hi);
  }

  lemma NameReads(name: string)
    requires NameText(name)
    ensures Calm(name) && Closes(name)
  {
    NameCalm(name);
  }

  lemma Bracketed(open: string, s: string, close: string)
    requires Calm(s) && (open == "(" || open == "[") && (close == ")" || close == "]")
    ensures Calm(open + s + close) && Closes(open + s + close)
  {
    hide Calm;
    PlainCalm(open);
    PlainCalm(close);
    CalmAppend(open, s);
    CalmAppend(open + s, close);
    ClosesAppend(open + s, close);
  }

  lemma {:induction false} ShowCalm(n: Node, level: nat)
    requires Readable(n)
    ensures Calm(Show(n, level)) && Closes(Show(n, level))
    decreases n, 1
  {
    hide Calm, Closes, Inside;
    InsideCalm(n);
    if level == 3 && Optional(n) {
      ShowCalm(n.kid, 0);
      Bracketed("[", Show(n.kid, 0), "]");
    } else if Rank(n) < level {
      Bracketed("(", Inside(n), ")");
    }
  }

  lemma {:induction false} AllCalm(kids: seq<Node>, level: nat, sep: string)
    requires kids != [] && (forall i :: 0 <= i < |kids| ==> Readable(kids[i])) && Calm(sep)
    ensures Calm(ShowAll(kids, level, sep)) && Closes(ShowAll(kids, level, sep))
    decreases kids
  {
    hide Calm, Closes, Show, Readable;
    ShowCalm(kids[0], level);
    var first := Show(kids[0], level);
    if |kids| == 1 {
      assert first + "" == first;
    } else {
      AllCalm(kids[1..], level, sep);
      var rest := ShowAll(kids[1..], level, sep);
      CalmAppend(sep, rest);
      CalmAppend(first, sep + rest);
      ClosesAppend(sep, rest);
      ClosesAppend(first, sep + rest);
    }
  }

  // ----- lines

  /** A definition there is a text for. */
  ghost predicate GoodDef(d: Def) {
    d.name != "" && Letter(d.name[0]) && (forall i :: 0 <= i < |d.name| ==> NameChar(d.name[i])) && Fits(d.node, 0, 0)
  }

  function Sign(more: bool): string {
    if more then "=/ " else "= "
  }

  function RuleText(d: Def): string
    requires Readable(d.node)
  {
    d.name + " " + Sign(d.more) + Show(d.node, 0)
  }

  lemma LineCalm(d: Def)
    requires GoodDef(d)
    ensures Readable(d.node) && Calm(RuleText(d)) && Closes(RuleText(d)) && RuleText(d)[0] == d.name[0]
  {
    hide Calm, Closes, Show, Readable, Fits;
    ReadableOf(d.node, 0, 0);
    NameCalm(d.name);
    PlainCalm(" ");
    PlainCalm(Sign(d.more));
    ShowCalm(d.node, 0);
    CalmAppend(d.name, " ");
    CalmAppend(d.name + " ", Sign(d.more));
    CalmAppend(d.name + " " + Sign(d.more), Show(d.node, 0));
    ClosesAppend(d.name + " " + Sign(d.more), Show(d.node, 0));
  }

  lemma CalmLine(s: string)
    requires Calm(s) && Closes(s) && !Space(s[0])
    ensures Uncomment(s) == s && Trim(s) == s && Spaces(s) == s && '\n' !in s && '\r' !in s
  {
    hide Kept, State;
    assert s[..|s|] == s;
    SpacesNone(s);
  }

  lemma SignBack(more: bool, shown: string)
    requires shown != "" && !Space(shown[0]) && shown[0] != '/'
    ensures var behind := Sign(more) + shown;
            Spaces(" " + behind) == behind && behind[0] == '=' && (more <==> 1 < |behind| && behind[1] == '/')
            && Spaces(behind[if more then 2 else 1..]) == shown
  {
    var behind := Sign(more) + shown;
    SpaceOff(behind);
    SpacesNone(behind);
    assert behind[if more then 2 else 1..] == " " + shown;
    SpaceOff(shown);
    SpacesNone(shown);
  }

  lemma NameBehind(name: string, behind: string)
    requires name != "" && forall i :: 0 <= i < |name| ==> NameChar(name[i])
    ensures var s := name + (" " + behind);
            NameLead(s) == |name| && s[..|name|] == name && s[|name|..] == " " + behind && s[0] == name[0]
  {
    NameLeadAll(name, " " + behind);
  }

  /** A definition's text is read back as the definition. */
  lemma DefBack(d: Def)
    requires GoodDef(d)
    ensures Readable(d.node) && ReadDef(RuleText(d)) == Some(d)
  {
    hide Show, Readable, Fits, Elements, NameLead, Sign, Spaces, NameChar;
    ReadableOf(d.node, 0, 0);
    var shown := Show(d.node, 0);
    ShownStart(d.node);
    SignBack(d.more, shown);
    NameBehind(d.name, Sign(d.more) + shown);
    assert RuleText(d) == d.name + (" " + (Sign(d.more) + shown));
    ElementsBack(d.node);
  }

  lemma ShownStart(n: Node)
    requires Readable(n)
    ensures Show(n, 0) != "" && !Space(Show(n, 0)[0]) && Show(n, 0)[0] != '/'
  {
    hide Show;
    ShowOpens(n, 0);
  }

  /** A rule's text is its definition: no comment cuts it, nothing is trimmed, and it reads back. */
  lemma LineBack(d: Def)
    requires GoodDef(d)
    ensures Readable(d.node) && Uncomment(RuleText(d)) == RuleText(d) && Trim(RuleText(d)) == RuleText(d)
    ensures Spaces(RuleText(d)) == RuleText(d) != "" && '\n' !in RuleText(d) && '\r' !in RuleText(d)
    ensures ReadDef(RuleText(d)) == Some(d)
  {
    hide RuleText, Readable, Calm, Fits, Kept, ReadDef, Trim, Uncomment, Spaces;
    LineCalm(d);
    CalmLine(RuleText(d));
    DefBack(d);
  }

  // ----- the whole

  ghost predicate GoodDefs(ds: seq<Def>) {
    forall i :: 0 <= i < |ds| ==> GoodDef(ds[i])
  }

  lemma GoodReadable(ds: seq<Def>)
    requires GoodDefs(ds)
    ensures forall i :: 0 <= i < |ds| ==> Readable(ds[i].node)
  {
  }

  function RuleLines(ds: seq<Def>): Lines
    requires forall i :: 0 <= i < |ds| ==> Readable(ds[i].node)
  {
    if ds == [] then [] else RuleLines(ds[..|ds| - 1]) + [RuleText(ds[|ds| - 1])]
  }

  /** A grammar's text: a rule to a line. */
  function SourceOf(ds: seq<Def>): string
    requires forall i :: 0 <= i < |ds| ==> Readable(ds[i].node)
  {
    Join(RuleLines(ds)) + "\n"
  }

  /** The table of definitions, one after another. */
  function DefTable(ds: seq<Def>): Table {
    if ds == [] then Table(map[], [], "")
    else
      var before := DefTable(ds[..|ds| - 1]);
      if before.NoTable? then NoTable else AddDef(before, ds[|ds| - 1])
  }

  lemma {:induction false} LinesBack(ds: seq<Def>)
    requires GoodDefs(ds)
    ensures forall i :: 0 <= i < |ds| ==> Readable(ds[i].node)
    ensures Defs(RuleLines(ds)) == Some(RuleLines(ds)) && TableOf(RuleLines(ds)) == DefTable(ds)
    ensures |RuleLines(ds)| == |ds| && forall i :: 0 <= i < |RuleLines(ds)| ==> '\n' !in RuleLines(ds)[i] && '\r' !in RuleLines(ds)[i]
  {
    hide GoodDef, Readable, RuleText, Uncomment, Trim, Spaces, ReadDef, AddDef;
    GoodReadable(ds);
    if ds != [] {
      var n := |ds| - 1;
      var ls := RuleLines(ds);
      LinesBack(ds[..n]);
      LineBack(ds[n]);
      assert ls[..n] == RuleLines(ds[..n]) && ls[n] == RuleText(ds[n]);
      NotSpaced(ls[n]);
    }
  }

  lemma NotSpaced(s: string)
    requires Spaces(s) == s != ""
    ensures !Space(s[0])
  {
  }

  lemma {:induction false} NewlinesSame(s: string)
    requires '\r' !in s
    ensures Newlines(s) == s
  {
    if s != "" {
      assert s[0] in s && forall c :: c in s[1..] ==> c in s;
      NewlinesSame(s[1..]);
      assert s == [s[0]] + s[1..];
    }
  }

  lemma {:induction false} JoinClean(ls: Lines)
    requires forall i :: 0 <= i < |ls| ==> '\r' !in ls[i]
    ensures '\r' !in Join(ls)
  {
    if 1 < |ls| {
      assert forall i :: 0 <= i < |ls[1..]| ==> ls[1..][i] == ls[i + 1];
      JoinClean(ls[1..]);
    }
  }

  lemma BlankLast(ls: seq<string>)
    ensures Defs(ls + [""]) == Defs(ls)
  {
    assert (ls + [""])[..|ls|] == ls;
    assert Uncomment("") == "";
  }

  /** A grammar written out reads back as its definitions. */
  lemma SourceBack(ds: seq<Def>)
    requires GoodDefs(ds) && ds != []
    ensures forall i :: 0 <= i < |ds| ==> Readable(ds[i].node)
    ensures SourceTable(SourceOf(ds)) == DefTable(ds)
  {
    hide GoodDef, Readable, RuleLines, Defs, TableOf, Split, Join, Newlines;
    LinesBack(ds);
    var ls := RuleLines(ds);
    JoinClean(ls);
    NewlinesSame(Join(ls) + "\n");
    SplitJoined(ls);
    BlankLast(ls);
  }
}
