/**
 Whatever the reader of elements reads is spelled: the texts it takes, and what it makes of
 each, are exactly those of the spellings (fReadElements, go/formatgrammar.go:270-457).
 */
module AbnfSpelled {
  import opened Numerals
  import opened Ranges
  import opened Grammar
  import opened AbnfText
  import opened AbnfBack
  import opened AbnfSpelling

  /** What a piece has taken, it has taken whole. */
  predicate Munched(p: Piece, rest: string) {
    match p
    case Name(_) => rest == "" || !NameChar(rest[0])
    case Number(_, _, _) => HexStop(rest)
    case _ => true
  }

  // ----- runs

  lemma {:induction false} SpaceCut(s: string) returns (gap: string)
    ensures AllSpaces(gap) && s == gap + Spaces(s)
  {
    if s != "" && Space(s[0]) {
      var more := SpaceCut(s[1..]);
      gap := [s[0]] + more;
      assert s == [s[0]] + s[1..];
    } else {
      gap := "";
    }
  }

  lemma {:induction false} NameMost(s: string)
    ensures var k := NameLead(s); (forall i :: 0 <= i < k ==> NameChar(s[i])) && (k < |s| ==> !NameChar(s[k]))
  {
    if s != "" && NameChar(s[0]) {
      NameMost(s[1..]);
      forall i | 0 <= i < NameLead(s) ensures NameChar(s[i]) { if 0 < i { assert s[i] == s[1..][i - 1]; } }
    }
  }

  lemma {:induction false} HexMost(s: string)
    ensures HexStop(s[HexLead(s)..])
  {
    if s != "" && 0 <= HexValue(s[0]) {
      HexMost(s[1..]);
      assert s[1..][HexLead(s[1..])..] == s[HexLead(s)..];
    }
  }

  lemma {:induction false} QuoteMost(s: string)
    requires QuoteAt(s) < |s|
    ensures s[QuoteAt(s)] == '"' && forall i :: 0 <= i < QuoteAt(s) ==> s[i] != '"'
  {
    if s[0] != '"' {
      QuoteMost(s[1..]);
      forall i | 0 <= i < QuoteAt(s) ensures s[i] != '"' { if 0 < i { assert s[i] == s[1..][i - 1]; } }
    }
  }

  lemma RunOf(run: string, base: nat)
    requires 0 < base && run != "" && InBase(run, base) && ValueIn(run, base) <= TOP
    ensures WellRun(run, base) && Worth(run, base) == ValueIn(run, base)
  {
    WorthIs(run, base);
  }

  // ----- pieces

  lemma QuotedOf(s: string, ci: bool) returns (text: string)
    requires Quoted(s, ci).Read?
    ensures s == "\"" + text + "\"" + Quoted(s, ci).rest
    ensures forall i :: 0 <= i < |text| ==> 0x20 <= text[i] as int <= 0x7e && text[i] != '"'
    ensures Quoted(s, ci).node == if text == "" then Cat([]) else Str(CodesOf(text), ci && HasCase(text))
  {
    var end := QuoteAt(s[1..]);
    text := s[1..1 + end];
    QuoteMost(s[1..]);
    CodesIs(text);
    forall i | 0 <= i < |text| ensures text[i] != '"' { assert text[i] == s[1..][i]; }
    assert s[1 + end] == s[1..][end] == '"';
    assert s == "\"" + text + "\"" + s[end + 2..];
  }

  lemma RunCut(s: string, base: nat) returns (run: string)
    requires 0 < base && 0 < HexLead(s) && InBase(s[..HexLead(s)], base) && ValueIn(s[..HexLead(s)], base) <= TOP
    ensures run == s[..HexLead(s)] && WellRun(run, base) && Worth(run, base) == ValueIn(run, base)
    ensures s == run + s[HexLead(s)..] && HexStop(s[HexLead(s)..])
  {
    run := s[..HexLead(s)];
    RunOf(run, base);
    HexMost(s);
  }

  lemma PointedOn(ns: seq<int>, s: string, base: nat)
    requires 0 < base && Pointed(ns, s, base).Values? && s != "" && s[0] == '.' && 0 < HexLead(s[1..])
    ensures var t := s[1..];
            var k := HexLead(t);
            && InBase(t[..k], base) && ValueIn(t[..k], base) <= TOP
            && Pointed(ns, s, base) == Pointed(ns + [ValueIn(t[..k], base)], t[k..], base)
  {
    hide HexLead, ValueIn, InBase;
  }

  lemma PointedEnd(ns: seq<int>, s: string, base: nat)
    requires 0 < base && !(s != "" && s[0] == '.' && 0 < HexLead(s[1..]))
    ensures Pointed(ns, s, base) == Values(ns, s)
  {
  }

  lemma RunsCons(run: string, more: seq<string>, rest: string, s: string)
    requires s != "" && s[0] == '.' && s[1..] == run + (RunsText(more) + rest)
    ensures RunsText([run] + more) + rest == s
  {
    assert ([run] + more)[1..] == more;
    assert s == "." + s[1..];
    assert "." + run + RunsText(more) + rest == "." + (run + (RunsText(more) + rest));
  }

  lemma WorthsCons(ns: seq<int>, run: string, more: seq<string>, base: nat)
    ensures ns + [Worth(run, base)] + Worths(more, base) == ns + Worths([run] + more, base)
  {
    hide Worth;
    assert Worths([run] + more, base) == [Worth(run, base)] + Worths(more, base);
  }

  lemma {:induction false} PointedOf(ns: seq<int>, s: string, base: nat) returns (runs: seq<string>)
    requires 0 < base && Pointed(ns, s, base).Values? && HexStop(s)
    ensures forall i :: 0 <= i < |runs| ==> WellRun(runs[i], base)
    ensures s == RunsText(runs) + Pointed(ns, s, base).rest && HexStop(Pointed(ns, s, base).rest)
    ensures Pointed(ns, s, base).ns == ns + Worths(runs, base)
    decreases |s|
  {
    hide Worth, ValueIn, InBase, WellRun, HexLead, Pointed;
    if s == "" || s[0] != '.' || HexLead(s[1..]) == 0 {
      runs := [];
      PointedEnd(ns, s, base);
      assert ns + Worths(runs, base) == ns;
    } else {
      PointedOn(ns, s, base);
      var run := RunCut(s[1..], base);
      var behind := s[1..][HexLead(s[1..])..];
      var more := PointedOf(ns + [ValueIn(run, base)], behind, base);
      runs := [run] + more;
      RunsCons(run, more, Pointed(ns, s, base).rest, s);
      WorthsCons(ns, run, more, base);
    }
  }

  lemma BaseIs(c: char)
    requires BaseOf(c) != 0
    ensures c in "bBdDxX" && BaseOf(c) == Radix(c)
  {
  }

  /** The parts of a number that was read. */
  lemma NumberOf(s: string, depth: nat) returns (p: Piece)
    requires Numeric(s).Read?
    ensures p.Number? && WellPiece(p, depth) && s == PieceText(p) + Numeric(s).rest && Numeric(s).node == PieceNode(p)
    ensures HexStop(Numeric(s).rest)
  {
    hide Worth, ValueIn, InBase, WellRun, HexLead, Pointed, PieceText, PieceNode, WellPiece, Radix, RunsText;
    BaseIs(s[1]);
    RadixIs(s[1]);
    var base := Radix(s[1]);
    var first := RunCut(s[2..], base);
    var rest := s[2..][HexLead(s[2..])..];
    assert s == "%" + [s[1]] + first + rest;
    if rest != "" && rest[0] == '-' && 0 < HexLead(rest[1..]) {
      p := RangeOf(s, first, rest, depth);
    } else {
      NumericPoints(s, base);
      var runs := PointedOf([ValueIn(first, base)], rest, base);
      p := Sequence(s[1], first, runs);
      SequenceText(s[1], first, runs, Numeric(s).rest);
      SequenceNode(s[1], first, runs);
      SequenceWell(s[1], first, runs, depth);
    }
  }

  lemma NumericDash(s: string, base: nat)
    requires 2 < |s| && s[0] == '%' && 0 < base && BaseOf(s[1]) == base && Numeric(s).Read?
    requires var rest := s[2..][HexLead(s[2..])..]; rest != "" && rest[0] == '-' && 0 < HexLead(rest[1..])
    ensures var t := s[2..][HexLead(s[2..])..][1..];
            var k := HexLead(t);
            && InBase(s[2..][..HexLead(s[2..])], base) && InBase(t[..k], base)
            && var v, w := ValueIn(s[2..][..HexLead(s[2..])], base), ValueIn(t[..k], base);
            v <= w <= TOP && Numeric(s) == Read(Cls([Range(v, w)]), t[k..])
  {
    hide HexLead, ValueIn, InBase, Pointed;
  }

  lemma DashCut(rest: string, last: string, behind: string)
    requires rest != "" && rest[0] == '-' && rest[1..] == last + behind
    ensures rest == "-" + last + behind
  {
    assert rest == [rest[0]] + rest[1..];
  }

  lemma RangeOf(s: string, first: string, rest: string, depth: nat) returns (p: Piece)
    requires 2 < |s| && BaseOf(s[1]) == Radix(s[1]) && s[1] in "bBdDxX" && s == "%" + [s[1]] + first + rest && Numeric(s).Read?
    requires first == s[2..][..HexLead(s[2..])] && rest == s[2..][HexLead(s[2..])..] && s[0] == '%'
    requires WellRun(first, Radix(s[1])) && Worth(first, Radix(s[1])) == ValueIn(first, Radix(s[1]))
    requires rest != "" && rest[0] == '-' && 0 < HexLead(rest[1..])
    ensures p.Number? && WellPiece(p, depth) && s == PieceText(p) + Numeric(s).rest && Numeric(s).node == PieceNode(p)
    ensures HexStop(Numeric(s).rest)
  {
    hide Worth, ValueIn, InBase, WellRun, HexLead, Pointed, Numeric, Radix, BaseOf;
    RadixIs(s[1]);
    var base := Radix(s[1]);
    NumericDash(s, base);
    var last := RunCut(rest[1..], base);
    var behind := rest[1..][HexLead(rest[1..])..];
    p := Number(s[1], first, To(last));
    DashCut(rest, last, behind);
    NumberText(s[1], first, "-" + last, behind);
  }

  lemma NumericPoints(s: string, base: nat)
    requires 2 < |s| && s[0] == '%' && 0 < base && BaseOf(s[1]) == base && Numeric(s).Read?
    requires var rest := s[2..][HexLead(s[2..])..]; !(rest != "" && rest[0] == '-' && 0 < HexLead(rest[1..]))
    ensures InBase(s[2..][..HexLead(s[2..])], base)
    ensures var v := ValueIn(s[2..][..HexLead(s[2..])], base);
            var out := Pointed([v], s[2..][HexLead(s[2..])..], base);
            out.Values? && Numeric(s) == Read(if |out.ns| == 1 then Cls([Range(v, v)]) else Str(out.ns, false), out.rest)
  {
    hide HexLead, ValueIn, InBase, Pointed;
  }

  /** A number of a first value and any number of others. */
  function Sequence(b: char, first: string, runs: seq<string>): Piece {
    Number(b, first, if runs == [] then Alone else Then(runs))
  }

  lemma SequenceText(b: char, first: string, runs: seq<string>, rest: string)
    ensures PieceText(Sequence(b, first, runs)) + rest == "%" + [b] + first + (RunsText(runs) + rest)
  {
    NumberText(b, first, RunsText(runs), rest);
    if runs == [] { assert RunsText(runs) == ""; }
  }

  lemma SequenceNode(b: char, first: string, runs: seq<string>)
    ensures var v := Worth(first, Radix(b));
            var ns := [v] + Worths(runs, Radix(b));
            PieceNode(Sequence(b, first, runs)) == if |ns| == 1 then Cls([Range(v, v)]) else Str(ns, false)
  {
    hide Worth, Radix;
  }

  lemma SequenceWell(b: char, first: string, runs: seq<string>, depth: nat)
    requires b in "bBdDxX" && WellRun(first, Radix(b)) && forall i :: 0 <= i < |runs| ==> WellRun(runs[i], Radix(b))
    ensures WellPiece(Sequence(b, first, runs), depth)
  {
    hide WellRun, Radix;
  }

  lemma NameOf(s: string, depth: nat)
    requires s != "" && Letter(s[0])
    ensures var k := NameLead(s);
            WellPiece(Name(s[..k]), depth) && s == s[..k] + s[k..] && Munched(Name(s[..k]), s[k..]) && LowerText(s[..k]) == InLower(s[..k])
  {
    NameMost(s);
    LowerIs(s[..NameLead(s)]);
  }

  lemma MarkOf(s: string, depth: nat) returns (p: Piece)
    requires 1 < |s| && s[0] == '%' && (LowerChar(s[1]) == 's' || LowerChar(s[1]) == 'i') && Element(s, depth).Read?
    ensures p.Chars? && WellPiece(p, depth) && s == PieceText(p) + Element(s, depth).rest && Element(s, depth).node == PieceNode(p)
  {
    hide Quoted, Numeric, HasCase;
    var text := QuotedOf(s[2..], LowerChar(s[1]) == 'i');
    p := Chars(s[..2], text);
    assert s == s[..2] + s[2..];
    assert s[..2] == ['%', s[1]];
    assert s == s[..2] + "\"" + text + "\"" + Quoted(s[2..], LowerChar(s[1]) == 'i').rest;
  }

  lemma Groups(open: string, text: string, close: string, rest: string, s: string)
    requires s != "" && s[1..] == text + (close + rest) && open == [s[0]]
    ensures s == open + text + close + rest
  {
    assert s == [s[0]] + s[1..];
  }

  lemma {:induction false} PieceOf(s: string, depth: nat) returns (p: Piece)
    requires depth <= 64 && Element(s, depth).Read?
    ensures WellPiece(p, depth) && s == PieceText(p) + Element(s, depth).rest && Element(s, depth).node == PieceNode(p)
    ensures Munched(p, Element(s, depth).rest)
    decreases |s|, 1
  {
    hide Alternation, Quoted, Numeric, ChoiceText, ChoiceNode, WellChoice, NameLead, LowerText, HasCase;
    if s[0] == '(' || s[0] == '[' {
      var inner := ChoiceOf(s[1..], depth + 1);
      var out := Alternation(s[1..], depth + 1);
      p := if s[0] == '(' then Group(inner) else Maybe(inner);
      assert out.rest == [out.rest[0]] + out.rest[1..];
      Groups([s[0]], ChoiceText(inner), [out.rest[0]], out.rest[1..], s);
    } else if s[0] == '"' {
      var text := QuotedOf(s, true);
      p := Chars("", text);
      assert "" + "\"" + text + "\"" == "\"" + text + "\"";
    } else if s[0] == '%' {
      if 1 < |s| && (LowerChar(s[1]) == 's' || LowerChar(s[1]) == 'i') {
        p := MarkOf(s, depth);
      } else {
        p := NumberOf(s, depth);
      }
    } else {
      NameOf(s, depth);
      p := Name(s[..NameLead(s)]);
    }
  }

  // ----- counts

  lemma StarText(s: string, a: nat, b: nat)
    requires a < |s| && s[a] == '*' && a + 1 + b <= |s|
    ensures s == s[..a] + "*" + s[a..][1..][..b] + s[a..][1..][b..]
  {
    assert s[a..][1..] == s[a + 1..];
    assert s == s[..a] + [s[a]] + s[a + 1..];
    assert s[a + 1..] == s[a + 1..][..b] + s[a + 1..][b..];
  }

  lemma StarOf(s: string) returns (c: Count)
    requires Bounds(s).Repeat? && DigitsLead(s) < |s| && s[DigitsLead(s)] == '*'
    ensures WellCount(c) && s == CountText(c) + Bounds(s).rest && Bounds(s).min == Least(c) && Bounds(s).max == Most(c)
  {
    hide ReadDigits, DigitsLead;
    var a := DigitsLead(s);
    var t := s[a..][1..];
    var b := DigitsLead(t);
    NoAmount();
    c := Between(s[..a], t[..b]);
    StarText(s, a, b);
  }

  lemma PlainOf(s: string) returns (c: Count)
    requires Bounds(s).Repeat? && !(DigitsLead(s) < |s| && s[DigitsLead(s)] == '*')
    ensures WellCount(c) && s == CountText(c) + Bounds(s).rest && Bounds(s).min == Least(c) && Bounds(s).max == Most(c)
  {
    hide ReadDigits, DigitsLead;
    var a := DigitsLead(s);
    assert s[a..][0..] == s[a..];
    assert s == s[..a] + s[a..];
    c := if a == 0 then Uncounted else Exactly(s[..a]);
  }

  lemma CountOf(s: string) returns (c: Count)
    requires Bounds(s).Repeat?
    ensures WellCount(c) && s == CountText(c) + Bounds(s).rest && Bounds(s).min == Least(c) && Bounds(s).max == Most(c)
  {
    hide Bounds, DigitsLead, CountText, WellCount, Least, Most;
    if DigitsLead(s) < |s| && s[DigitsLead(s)] == '*' { c := StarOf(s); } else { c := PlainOf(s); }
  }

  lemma ItemOf(s: string, depth: nat) returns (c: Count, p: Piece)
    requires depth <= 64 && Repetition(s, depth).Read?
    ensures WellCount(c) && WellPiece(p, depth) && s == CountText(c) + (PieceText(p) + Repetition(s, depth).rest)
    ensures Repetition(s, depth).node == Times(c, PieceNode(p)) && Munched(p, Repetition(s, depth).rest)
    decreases |s|, 2
  {
    hide Bounds, Element, CountText, PieceText, PieceNode, WellPiece, WellCount, Munched;
    c := CountOf(s);
    p := PieceOf(Bounds(s).rest, depth);
  }

  // ----- the whole

  /** An item begins with no dash and no point. */
  lemma ItemsFirst(items: seq<Item>, depth: nat)
    requires WellItems(items, depth) && items != []
    ensures ItemsText(items) != "" && ItemsText(items)[0] != '-' && ItemsText(items)[0] != '.'
  {
    hide PieceText, WellPiece, ItemsText, CountText;
    var i := items[0];
    var behind := i.gap + (ItemsText(items[1..]) + "");
    ItemsHead(items, "");
    assert ItemsText(items) + "" == ItemsText(items);
    PieceStart(i.piece, behind, depth);
    if CountText(i.count) != "" {
      CountFirst(i.count);
      assert ItemsText(items)[0] == CountText(i.count)[0];
    }
  }

  lemma CountFirst(c: Count)
    requires WellCount(c) && CountText(c) != ""
    ensures CountText(c)[0] != '-' && CountText(c)[0] != '.'
  {
    if c.Between? && c.least != "" { assert CountText(c)[0] == c.least[0]; }
  }

  lemma MunchedParted(p: Piece, gap: string, items: seq<Item>, rest: string, depth: nat)
    requires WellItems(items, depth) && AllSpaces(gap) && Munched(p, gap + (ItemsText(items) + rest))
    ensures Parted(p, gap + ItemsText(items))
  {
    hide ItemsText, WellItems;
    var behind := gap + ItemsText(items);
    assert behind + rest == gap + (ItemsText(items) + rest);
    if behind != "" {
      assert behind[0] == (behind + rest)[0];
      if gap == "" {
        assert behind == ItemsText(items);
        if items == [] { NoItems(); } else { ItemsFirst(items, depth); }
      } else {
        assert behind[0] == gap[0];
      }
    }
  }

  lemma ItemsCons(c: Count, p: Piece, gap: string, more: seq<Item>, depth: nat, rest: string)
    requires WellCount(c) && WellPiece(p, depth) && AllSpaces(gap) && WellItems(more, depth) && Parted(p, gap + ItemsText(more))
    ensures var items := [Item(c, p, gap)] + more;
            && WellItems(items, depth) && ItemNodes(items) == [Times(c, PieceNode(p))] + ItemNodes(more)
            && ItemsText(items) + rest == CountText(c) + (PieceText(p) + (gap + (ItemsText(more) + rest)))
  {
    hide PieceText, PieceNode, CountText, WellPiece, WellCount, Parted, Times, ItemsText;
    var items := [Item(c, p, gap)] + more;
    assert items[0] == Item(c, p, gap) && items[1..] == more;
    ItemsHead(items, rest);
  }

  lemma {:induction false} ItemsOf(done: seq<Node>, s: string, depth: nat) returns (items: seq<Item>)
    requires depth <= 64 && Items(done, s, depth).Read?
    ensures WellItems(items, depth) && s == ItemsText(items) + Items(done, s, depth).rest && Ends(Items(done, s, depth).rest)
    ensures done + ItemNodes(items) != [] && Items(done, s, depth).node == OneOr(done + ItemNodes(items), false)
    ensures done == [] ==> items != []
    decreases |s|, 3
  {
    hide ItemsText, PieceText, CountText, PieceNode, Times, WellPiece, WellCount, Parted, Munched, Repetition, OneOr, Ends, Spaces, WellItems;
    if Ends(s) {
      items := [];
      NoItems();
      WellNone(depth);
      assert done + ItemNodes([]) == done;
    } else {
      var next := Repetition(s, depth);
      var c, p := ItemOf(s, depth);
      var gap := SpaceCut(next.rest);
      var more := ItemsOf(done + [next.node], Spaces(next.rest), depth);
      var rest := Items(done, s, depth).rest;
      MunchedParted(p, gap, more, rest, depth);
      ItemsCons(c, p, gap, more, depth, rest);
      items := [Item(c, p, gap)] + more;
      assert done + [next.node] + ItemNodes(more) == done + ItemNodes(items);
    }
  }

  lemma WellNone(depth: nat)
    ensures WellItems([], depth) && WellLines([], depth)
  {
  }

  lemma {:induction false} LineOf(s: string, depth: nat) returns (l: Line)
    requires depth <= 64 && Concatenation(s, depth).Read?
    ensures WellLine(l, depth) && s == LineText(l) + Concatenation(s, depth).rest && Ends(Concatenation(s, depth).rest)
    ensures Concatenation(s, depth).node == LineNode(l)
    decreases |s|, 4
  {
    hide ItemsText, WellItems, ItemNodes, Items, Ends, Spaces;
    var lead := SpaceCut(s);
    var items := ItemsOf([], Spaces(s), depth);
    l := Line(lead, items);
    assert [] + ItemNodes(items) == ItemNodes(items);
    OneIs(ItemNodes(items));
  }

  lemma LinesCons(l: Line, more: seq<Line>, depth: nat)
    requires WellLine(l, depth) && WellLines(more, depth)
    ensures var lines := [l] + more;
            && WellLines(lines, depth) && LineNodes(lines) == [LineNode(l)] + LineNodes(more)
            && SlashText(lines) == "/" + (LineText(l) + SlashText(more))
  {
    hide LineText, LineNode, WellLine;
    var lines := [l] + more;
    assert lines[0] == l && lines[1..] == more;
  }

  /** The alternatives go on behind a slash with what was read there. */
  lemma AlternativesGo(alts: seq<Node>, s: string, depth: nat)
    requires alts != [] && s != "" && s[0] == '/' && Alternatives(alts, s, depth).Read?
    ensures Concatenation(s[1..], depth).Read?
    ensures var next := Concatenation(s[1..], depth); Alternatives(alts, s, depth) == Alternatives(alts + [next.node], Spaces(next.rest), depth)
  {
    hide Concatenation, Spaces;
  }

  lemma SlashParts(s: string, line: string, more: string, rest: string)
    requires s != "" && s[0] == '/' && s[1..] == line + (more + rest)
    ensures s == "/" + (line + more) + rest
  {
    assert s == [s[0]] + s[1..];
  }

  lemma {:induction false} LinesOf(alts: seq<Node>, s: string, depth: nat) returns (lines: seq<Line>)
    requires depth <= 64 && alts != [] && Ends(s) && Alternatives(alts, s, depth).Read?
    ensures WellLines(lines, depth) && s == SlashText(lines) + Alternatives(alts, s, depth).rest
    ensures Closed(Alternatives(alts, s, depth).rest)
    ensures Alternatives(alts, s, depth).node == OneOr(alts + LineNodes(lines), true)
    decreases |s|, 6
  {
    hide LineText, LineNode, LineNodes, WellLine, WellLines, Concatenation, Alternatives, OneOr, SlashText, Spaces;
    if s == "" || s[0] != '/' {
      lines := [];
      AlternativesEnd(alts, s, depth);
      NoLines();
      WellNone(depth);
      NoSlash();
      assert alts + LineNodes([]) == alts;
    } else {
      AlternativesGo(alts, s, depth);
      var next := Concatenation(s[1..], depth);
      var l := LineOf(s[1..], depth);
      EndsSpaces(next.rest);
      var more := LinesOf(alts + [next.node], next.rest, depth);
      lines := [l] + more;
      LinesCons(l, more, depth);
      SlashParts(s, LineText(l), SlashText(more), Alternatives(alts, s, depth).rest);
      assert alts + [next.node] + LineNodes(more) == alts + LineNodes(lines);
    }
  }

  lemma NoSlash()
    ensures SlashText([]) == ""
  {
  }

  lemma EndsSpaces(rest: string)
    requires Ends(rest)
    ensures Spaces(rest) == rest
  {
  }

  lemma {:induction false} ChoiceOf(s: string, depth: nat) returns (c: Choice)
    requires depth <= 64 && Alternation(s, depth).Read?
    ensures WellChoice(c, depth) && s == ChoiceText(c) + Alternation(s, depth).rest && ChoiceNode(c) == Alternation(s, depth).node
    decreases |s|, 5
  {
    hide LineText, LineNode, LineNodes, ChoiceText, ChoiceNode, WellLine, WellLines, Concatenation, OneOr, SlashText, Spaces, Ends;
    var first := Concatenation(s, depth);
    var l := LineOf(s, depth);
    EndsSpaces(first.rest);
    var more := LinesOf([first.node], first.rest, depth);
    c := Choice([l] + more);
    LinesCons(l, more, depth);
    assert c.lines[0] == l && c.lines[1..] == more;
    ChoiceHead(c, Alternation(s, depth).rest);
  }

  /** The text is spelled so, and means this. */
  ghost predicate Spells(s: string, n: Node) {
    exists c :: WellChoice(c, 0) && ChoiceText(c) == s && ChoiceNode(c) == n
  }

  /** A text is read exactly where it is spelled, and as what it means. */
  lemma ReadIff(s: string, n: Node)
    ensures Elements(s) == Read(n, "") <==> Spells(s, n)
  {
    hide WellChoice, ChoiceText, ChoiceNode, Alternation;
    if Elements(s) == Read(n, "") {
      var c := ChoiceOf(s, 0);
      assert ChoiceText(c) + "" == ChoiceText(c);
    }
    if Spells(s, n) {
      var c :| WellChoice(c, 0) && ChoiceText(c) == s && ChoiceNode(c) == n;
      SpellingRead(c);
    }
  }

  /** And refused exactly where it is not spelled at all. */
  lemma RefusedIff(s: string)
    ensures Elements(s).Bad? <==> forall n :: !Spells(s, n)
  {
    hide Elements, Spells;
    forall n ensures Elements(s) == Read(n, "") <==> Spells(s, n) { ReadIff(s, n); }
    ElementsWhole(s);
  }

  lemma ElementsWhole(s: string)
    ensures Elements(s).Read? ==> Elements(s) == Read(Elements(s).node, "")
  {
  }
}
