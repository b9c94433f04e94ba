/**
 The elements of an ABNF rule as they may be spelled (section 4 of RFC 5234 and section 2.1 of
 RFC 7405), with every choice a spelling has, and what each means: told of the texts, and
 proved of the reader (fReadElements, go/formatgrammar.go:270-457).
 */
module AbnfSpelling {
  import opened Numerals
  import opened Ranges
  import opened Grammar
  import opened AbnfText
  import opened AbnfBack

  /** Alternatives with slashes between them. */
  datatype Choice = Choice(lines: seq<Line>)

  /** Items in sequence, spaces in front of the first and behind each. */
  datatype Line = Line(lead: string, items: seq<Item>)

  datatype Item = Item(count: Count, piece: Piece, gap: string)

  /** How often an element stands: no count, a plain one, or bounds around a star. */
  datatype Count = Uncounted | Exactly(n: string) | Between(least: string, most: string)

  datatype Piece =
    | Name(name: string)
    | Group(inner: Choice)
    | Maybe(inner: Choice)
    | Chars(mark: string, text: string)
    | Number(base: char, first: string, more: More)

  /** Behind a number's first value: nothing, the end of a range, or further values. */
  datatype More = Alone | To(last: string) | Then(runs: seq<string>)

  // ----- the text

  function ChoiceText(c: Choice): string
    decreases c, 1
  {
    LinesText(c.lines)
  }

  function LinesText(lines: seq<Line>): string
    decreases lines, 0
  {
    if lines == [] then "" else LineText(lines[0]) + SlashText(lines[1..])
  }

  /** Further alternatives, a slash in front of each. */
  function SlashText(lines: seq<Line>): string
    decreases lines, 1
  {
    if lines == [] then "" else "/" + LinesText(lines)
  }

  function LineText(l: Line): string
    decreases l, 1
  {
    l.lead + ItemsText(l.items)
  }

  function ItemsText(items: seq<Item>): string
    decreases items, 0
  {
    if items == [] then "" else CountText(items[0].count) + PieceText(items[0].piece) + items[0].gap + ItemsText(items[1..])
  }

  function CountText(c: Count): string {
    match c
    case Uncounted => ""
    case Exactly(n) => n
    case Between(least, most) => least + "*" + most
  }

  function PieceText(p: Piece): string
    decreases p, 1
  {
    match p
    case Name(name) => name
    case Group(inner) => "(" + ChoiceText(inner) + ")"
    case Maybe(inner) => "[" + ChoiceText(inner) + "]"
    case Chars(mark, text) => mark + "\"" + text + "\""
    case Number(base, first, more) => "%" + [base] + first + MoreText(more)
  }

  function MoreText(more: More): string {
    match more
    case Alone => ""
    case To(last) => "-" + last
    case Then(runs) => RunsText(runs)
  }

  function RunsText(runs: seq<string>): string {
    if runs == [] then "" else "." + runs[0] + RunsText(runs[1..])
  }

  // ----- the meaning

  function ChoiceNode(c: Choice): Node
    decreases c, 1
  {
    var nodes := LineNodes(c.lines);
    if |nodes| == 1 then nodes[0] else Alt(nodes)
  }

  function LineNodes(lines: seq<Line>): (nodes: seq<Node>)
    ensures |nodes| == |lines|
    decreases lines, 0
  {
    if lines == [] then [] else [LineNode(lines[0])] + LineNodes(lines[1..])
  }

  function LineNode(l: Line): Node
    decreases l, 1
  {
    var nodes := ItemNodes(l.items);
    if |nodes| == 1 then nodes[0] else Cat(nodes)
  }

  function ItemNodes(items: seq<Item>): (nodes: seq<Node>)
    ensures |nodes| == |items|
    decreases items, 0
  {
    if items == [] then [] else [Times(items[0].count, PieceNode(items[0].piece))] + ItemNodes(items[1..])
  }

  function Amount(n: string): nat {
    if IsDigits(n) then ReadDigits(n) else 0
  }

  function Least(c: Count): nat {
    match c
    case Uncounted => 1
    case Exactly(n) => Amount(n)
    case Between(least, _) => Amount(least)
  }

  /** The most there may be, none given as -1. */
  function Most(c: Count): int {
    match c
    case Uncounted => 1
    case Exactly(n) => Amount(n)
    case Between(_, most) => if most == "" then -1 else Amount(most)
  }

  /** As often as the count says; once is the thing itself. */
  function Times(c: Count, n: Node): Node {
    if Least(c) == 1 && Most(c) == 1 then n else Rep(n, Least(c), Most(c))
  }

  function PieceNode(p: Piece): Node
    decreases p, 1
  {
    match p
    case Name(name) => Ref(InLower(name))
    case Group(inner) => ChoiceNode(inner)
    case Maybe(inner) => Rep(ChoiceNode(inner), 0, 1)
    case Chars(mark, text) => if text == "" then Cat([]) else Str(CodesOf(text), !CaseMark(mark) && HasCase(text))
    case Number(base, first, more) =>
      match more
      case Alone => Cls([Range(Worth(first, Radix(base)), Worth(first, Radix(base)))])
      case To(last) => Cls([Range(Worth(first, Radix(base)), Worth(last, Radix(base)))])
      case Then(runs) => Str([Worth(first, Radix(base))] + Worths(runs, Radix(base)), false)
  }

  /** Section 2.1 of RFC 5234: rule names ignore case. */
  function InLower(name: string): (s: string)
    ensures |s| == |name| && forall i :: 0 <= i < |s| ==> s[i] == if 'A' <= name[i] <= 'Z' then (name[i] as int + 0x20) as char else name[i]
  {
    seq(|name|, i requires 0 <= i < |name| => if 'A' <= name[i] <= 'Z' then (name[i] as int + 0x20) as char else name[i])
  }

  function CodesOf(text: string): (cps: seq<int>)
    ensures |cps| == |text| && forall i :: 0 <= i < |text| ==> cps[i] == text[i] as int
  {
    seq(|text|, i requires 0 <= i < |text| => text[i] as int)
  }

  predicate CaseMark(mark: string) {
    mark == "%s" || mark == "%S"
  }

  predicate HasCase(text: string) {
    exists i :: 0 <= i < |text| && ('A' <= text[i] <= 'Z' || 'a' <= text[i] <= 'z')
  }

  function Radix(base: char): nat {
    if base == 'b' || base == 'B' then 2 else if base == 'd' || base == 'D' then 10 else 16
  }

  function Power(base: nat, n: nat): nat {
    if n == 0 then 1 else base * Power(base, n - 1)
  }

  /** A run of digits by the place of each. */
  function Worth(run: string, base: nat): int {
    if run == "" then 0 else HexValue(run[0]) * Power(base, |run| - 1) + Worth(run[1..], base)
  }

  function Worths(runs: seq<string>, base: nat): (ns: seq<int>)
    ensures |ns| == |runs| && forall i :: 0 <= i < |runs| ==> ns[i] == Worth(runs[i], base)
  {
    seq(|runs|, i requires 0 <= i < |runs| => Worth(runs[i], base))
  }

  // ----- what may be spelled

  predicate WellChoice(c: Choice, depth: nat)
    decreases c, 1
  {
    c.lines != [] && WellLines(c.lines, depth)
  }

  predicate WellLines(lines: seq<Line>, depth: nat)
    decreases lines, 0
  {
    lines != [] ==> WellLine(lines[0], depth) && WellLines(lines[1..], depth)
  }

  predicate WellLine(l: Line, depth: nat)
    decreases l, 1
  {
    AllSpaces(l.lead) && l.items != [] && WellItems(l.items, depth)
  }

  predicate WellItems(items: seq<Item>, depth: nat)
    decreases items, 0
  {
    items != [] ==>
      && WellCount(items[0].count) && WellPiece(items[0].piece, depth) && AllSpaces(items[0].gap)
      && Parted(items[0].piece, items[0].gap + ItemsText(items[1..])) && WellItems(items[1..], depth)
  }

  predicate AllSpaces(s: string) {
    forall i :: 0 <= i < |s| ==> s[i] == ' ' || s[i] == '\t'
  }

  predicate WellDigits(n: string) {
    |n| <= 9 && IsDigits(n)
  }

  /** Counts of up to nine digits, bounds the right way round. */
  predicate WellCount(c: Count) {
    match c
    case Uncounted => true
    case Exactly(n) => n != "" && WellDigits(n)
    case Between(least, most) => WellDigits(least) && WellDigits(most) && (most == "" || Amount(least) <= Amount(most))
  }

  /** What follows does not go on with the piece: no letter, digit or dash with a name, no digit,
      dash or point with a number. */
  predicate Parted(p: Piece, behind: string) {
    behind == "" ||
    match p
    case Name(_) => !NameChar(behind[0])
    case Number(_, _, _) => HexValue(behind[0]) < 0 && behind[0] != '-' && behind[0] != '.'
    case _ => true
  }

  /** At a depth of groups; they nest up to 64 deep. */
  predicate WellPiece(p: Piece, depth: nat)
    decreases p, 1
  {
    match p
    case Name(name) => name != "" && Letter(name[0]) && forall i :: 0 <= i < |name| ==> NameChar(name[i])
    case Group(inner) => depth < 64 && WellChoice(inner, depth + 1)
    case Maybe(inner) => depth < 64 && WellChoice(inner, depth + 1)
    case Chars(mark, text) =>
      && (mark == "" || mark == "%s" || mark == "%S" || mark == "%i" || mark == "%I")
      && forall i :: 0 <= i < |text| ==> 0x20 <= text[i] as int <= 0x7e && text[i] != '"'
    case Number(base, first, more) =>
      && base in "bBdDxX" && WellRun(first, Radix(base))
      && (more.To? ==> WellRun(more.last, Radix(base)) && Worth(first, Radix(base)) <= Worth(more.last, Radix(base)))
      && (more.Then? ==> more.runs != [] && forall i :: 0 <= i < |more.runs| ==> WellRun(more.runs[i], Radix(base)))
  }

  /** Digits of the base, worth no more than the last code point. */
  predicate WellRun(run: string, base: nat) {
    run != "" && (forall i :: 0 <= i < |run| ==> 0 <= HexValue(run[i]) < base) && Worth(run, base) <= 0x10ffff
  }

  // ----- the reader's own words

  /** The digit of a value, from 0 to 15, in either case. */
  lemma DigitIs(c: char, v: nat)
    requires v < 16
    ensures HexValue(c) == v <==> c == "0123456789ABCDEF"[v] || c == "0123456789abcdef"[v]
  {
    var upper, lower := "0123456789ABCDEF", "0123456789abcdef";
    if v < 10 { assert upper[v] == '0' + v as char == lower[v]; } else { assert upper[v] == 'A' + (v - 10) as char && lower[v] == 'a' + (v - 10) as char; }
  }

  /** A name goes on with letters, digits and dashes. */
  lemma NameCharIs(c: char)
    ensures Letter(c) <==> c in "ABCDEFGHIJKLMNOPQRSTUVWXYZ" || c in "abcdefghijklmnopqrstuvwxyz"
    ensures NameChar(c) <==> c == '-' || c in "0123456789" || c in "ABCDEFGHIJKLMNOPQRSTUVWXYZ" || c in "abcdefghijklmnopqrstuvwxyz"
  {
    InDigits(c);
    InCapitals(c);
    InSmalls(c);
  }

  lemma InDigits(c: char)
    ensures c in "0123456789" <==> '0' <= c <= '9'
  {
  }

  lemma InCapitals(c: char)
    ensures c in "ABCDEFGHIJKLMNOPQRSTUVWXYZ" <==> 'A' <= c <= 'Z'
  {
  }

  lemma InSmalls(c: char)
    ensures c in "abcdefghijklmnopqrstuvwxyz" <==> 'a' <= c <= 'z'
  {
  }

  lemma NoDigitIs(c: char)
    ensures HexValue(c) == -1 <==> c !in "0123456789ABCDEFabcdef"
  {
    assert forall d: char :: d in "0123456789ABCDEFabcdef" <==> '0' <= d <= '9' || 'A' <= d <= 'F' || 'a' <= d <= 'f';
  }

  lemma {:induction false} LowerIs(s: string)
    ensures LowerText(s) == InLower(s)
  {
    if s != "" {
      LowerIs(s[1..]);
      assert InLower(s) == [LowerChar(s[0])] + InLower(s[1..]);
    }
  }

  lemma CodesIs(text: string)
    ensures Codes(text) == CodesOf(text) && (HasLetter(text) <==> HasCase(text))
  {
    if HasCase(text) {
      var i :| 0 <= i < |text| && ('A' <= text[i] <= 'Z' || 'a' <= text[i] <= 'z');
      assert Letter(text[i]);
    }
    if HasLetter(text) {
      var i :| 0 <= i < |text| && Letter(text[i]);
      assert 'A' <= text[i] <= 'Z' || 'a' <= text[i] <= 'z';
    }
  }

  lemma Horner(h: int, p: int, w: int, base: int, v: int)
    ensures h * (base * p) + (w * base + v) == (h * p + w) * base + v
  {
    assert h * (base * p) == (h * p) * base;
    assert (h * p + w) * base == (h * p) * base + w * base;
  }

  lemma WorthHead(run: string, base: nat)
    requires run != ""
    ensures Worth(run, base) == HexValue(run[0]) * Power(base, |run| - 1) + Worth(run[1..], base)
    ensures Power(base, |run|) == base * Power(base, |run| - 1)
  {
  }

  lemma WorthOne(d: char, base: nat)
    ensures Worth("", base) == 0 && Worth([d], base) == HexValue(d)
  {
    assert [d][1..] == "" && Power(base, 0) == 1;
  }

  /** The place of a digit goes up by one with each behind it. */
  lemma {:induction false} WorthPush(run: string, d: char, base: nat)
    ensures Worth(run + [d], base) == Worth(run, base) * base + HexValue(d)
  {
    hide Worth, Power, HexValue;
    var s := run + [d];
    if run == "" {
      assert s == [d];
      WorthOne(d, base);
    } else {
      assert s[0] == run[0] && s[1..] == run[1..] + [d];
      WorthPush(run[1..], d, base);
      WorthHead(run, base);
      WorthHead(s, base);
      Horner(HexValue(run[0]), Power(base, |run| - 1), Worth(run[1..], base), base, HexValue(d));
    }
  }

  lemma {:induction false} WorthIs(run: string, base: nat)
    requires 0 < base && forall i :: 0 <= i < |run| ==> 0 <= HexValue(run[i]) < base
    ensures ValueIn(run, base) == Worth(run, base)
  {
    if run != "" {
      var front, d := run[..|run| - 1], run[|run| - 1];
      assert run == front + [d];
      WorthIs(front, base);
      WorthPush(front, d, base);
    }
  }

  lemma RadixIs(base: char)
    requires base in "bBdDxX"
    ensures BaseOf(base) == Radix(base) && 0 < Radix(base)
  {
  }

  /** A run is cut off whole and read by the places of its digits. */
  lemma RunIs(run: string, base: nat, behind: string)
    requires 0 < base <= 16 && WellRun(run, base) && HexStop(behind)
    ensures var s := run + behind;
            var k := HexLead(s); 0 < k <= |s| && s[..k] == run && s[k..] == behind
    ensures InBase(run, base) && ValueIn(run, base) == Worth(run, base) <= TOP
  {
    HexLeadAll(run, behind);
    WorthIs(run, base);
    CutAt(run, behind);
  }

  // ----- pieces

  lemma {:induction false} NameRun(s: string, behind: string)
    requires (forall i :: 0 <= i < |s| ==> NameChar(s[i])) && (behind == "" || !NameChar(behind[0]))
    ensures NameLead(s + behind) == |s|
  {
    if s == "" {
      assert s + behind == behind;
    } else {
      assert (s + behind)[0] == s[0] && (s + behind)[1..] == s[1..] + behind;
      NameRun(s[1..], behind);
    }
  }

  lemma NameRead(name: string, behind: string, depth: nat)
    requires WellPiece(Name(name), depth) && Parted(Name(name), behind)
    ensures Element(name + behind, depth) == Read(Ref(InLower(name)), behind)
  {
    hide NameLead, LowerText;
    NameRun(name, behind);
    LowerIs(name);
    CutAt(name, behind);
    assert (name + behind)[0] == name[0];
  }

  /** The four ways a string is marked, and the one it is not. */
  lemma CharsRead(mark: string, text: string, behind: string, depth: nat)
    requires WellPiece(Chars(mark, text), depth)
    ensures Element(mark + "\"" + text + "\"" + behind, depth) == Read(PieceNode(Chars(mark, text)), behind)
  {
    hide Quoted, Numeric, HasCase;
    var quoted := "\"" + text + "\"" + behind;
    var s := mark + "\"" + text + "\"" + behind;
    assert s == mark + quoted;
    CodesIs(text);
    if mark == "" {
      assert s == quoted && s[0] == '"';
      ElementString(s, depth);
      QuotedBack(text, behind, true);
    } else {
      assert s[0] == '%' && s[1] == mark[1] && s[2..] == quoted;
      QuotedBack(text, behind, !CaseMark(mark));
    }
  }

  lemma NumberIs(base: char, body: string, depth: nat)
    requires base in "bBdDxX"
    ensures Element("%" + [base] + body, depth) == Numeric("%" + [base] + body)
  {
    hide Numeric;
    var s := "%" + [base] + body;
    assert s[0] == '%' && s[1] == base;
  }

  /** A number's first value is read off. */
  lemma FirstRead(base: char, first: string, behind: string)
    requires base in "bBdDxX" && WellRun(first, Radix(base)) && HexStop(behind)
    ensures var s := "%" + [base] + first + behind;
            3 <= |s| && s[0] == '%' && BaseOf(s[1]) == Radix(base) && 0 < HexLead(s[2..]) && s[2..][..HexLead(s[2..])] == first
            && s[2..][HexLead(s[2..])..] == behind
            && InBase(first, Radix(base)) && ValueIn(first, Radix(base)) == Worth(first, Radix(base)) <= TOP
  {
    hide HexLead, InBase, ValueIn, Worth;
    var s := "%" + [base] + first + behind;
    assert s[0] == '%' && s[1] == base && s[2..] == first + behind;
    RadixIs(base);
    RunIs(first, Radix(base), behind);
  }

  lemma AloneRead(base: char, first: string, behind: string, depth: nat)
    requires WellPiece(Number(base, first, Alone), depth) && Parted(Number(base, first, Alone), behind)
    ensures Numeric("%" + [base] + first + behind) == Read(PieceNode(Number(base, first, Alone)), behind)
  {
    hide HexLead, InBase, ValueIn, Worth, BaseOf, Radix;
    FirstRead(base, first, behind);
    RadixIs(base);
  }

  lemma RangeRead(base: char, first: string, last: string, behind: string, depth: nat)
    requires WellPiece(Number(base, first, To(last)), depth) && Parted(Number(base, first, To(last)), behind)
    ensures Numeric("%" + [base] + first + ("-" + (last + behind))) == Read(PieceNode(Number(base, first, To(last))), behind)
  {
    hide HexLead, InBase, ValueIn, Worth, BaseOf, Radix, Pointed;
    var rest := "-" + (last + behind);
    assert rest[0] == '-' && rest[1..] == last + behind;
    FirstRead(base, first, rest);
    RadixIs(base);
    RadixSmall(base);
    RunIs(last, Radix(base), behind);
  }

  lemma RadixSmall(base: char)
    ensures 0 < Radix(base) <= 16
  {
  }

  lemma RunsStop(runs: seq<string>, behind: string)
    requires behind == "" || (HexValue(behind[0]) < 0 && behind[0] != '-')
    ensures HexStop(RunsText(runs) + behind) && (RunsText(runs) + behind != "" ==> (RunsText(runs) + behind)[0] != '-')
  {
  }

  lemma RunStep(ns: seq<int>, run: string, base: nat, behind: string)
    requires 0 < base <= 16 && WellRun(run, base) && HexStop(behind)
    ensures Pointed(ns, "." + (run + behind), base) == Pointed(ns + [Worth(run, base)], behind, base)
  {
    hide HexLead, InBase, ValueIn, Worth;
    var s := "." + (run + behind);
    assert s[0] == '.' && s[1..] == run + behind;
    RunIs(run, base, behind);
  }

  lemma RunsHead(runs: seq<string>, behind: string)
    requires runs != []
    ensures RunsText(runs) + behind == "." + (runs[0] + (RunsText(runs[1..]) + behind))
  {
  }

  lemma RunsEnd(ns: seq<int>, base: nat, behind: string)
    requires 0 < base && (behind == "" || behind[0] != '.')
    ensures Pointed(ns, RunsText([]) + behind, base) == Values(ns, behind)
  {
    assert RunsText([]) + behind == behind;
  }

  lemma {:induction false} RunsRead(ns: seq<int>, runs: seq<string>, base: nat, behind: string)
    requires 0 < base <= 16 && forall i :: 0 <= i < |runs| ==> WellRun(runs[i], base)
    requires behind == "" || (HexValue(behind[0]) < 0 && behind[0] != '-' && behind[0] != '.')
    ensures Pointed(ns, RunsText(runs) + behind, base) == Values(ns + Worths(runs, base), behind)
    decreases |runs|
  {
    hide WellRun, Worth, Pointed, RunsText;
    if runs == [] {
      RunsEnd(ns, base, behind);
      assert ns + Worths(runs, base) == ns;
    } else {
      var rest := RunsText(runs[1..]) + behind;
      RunsHead(runs, behind);
      RunsStop(runs[1..], behind);
      RunStep(ns, runs[0], base, rest);
      RunsRead(ns + [Worth(runs[0], base)], runs[1..], base, behind);
      assert ns + Worths(runs, base) == ns + [Worth(runs[0], base)] + Worths(runs[1..], base);
    }
  }

  lemma SequenceRead(base: char, first: string, runs: seq<string>, behind: string, depth: nat)
    requires WellPiece(Number(base, first, Then(runs)), depth) && Parted(Number(base, first, Then(runs)), behind)
    ensures Numeric("%" + [base] + first + (RunsText(runs) + behind)) == Read(PieceNode(Number(base, first, Then(runs))), behind)
  {
    hide HexLead, InBase, ValueIn, Worth, BaseOf, Radix, Pointed, RunsText, WellRun;
    var rest := RunsText(runs) + behind;
    RunsStop(runs, behind);
    FirstRead(base, first, rest);
    RadixIs(base);
    RadixSmall(base);
    RunsRead([Worth(first, Radix(base))], runs, Radix(base), behind);
  }

  lemma NumberText(base: char, first: string, m: string, behind: string)
    ensures "%" + [base] + first + m + behind == "%" + [base] + (first + m + behind)
    ensures "%" + [base] + first + m + behind == "%" + [base] + first + (m + behind)
  {
  }

  lemma DashText(last: string, behind: string)
    ensures "-" + last + behind == "-" + (last + behind)
  {
  }

  lemma NumberRead(base: char, first: string, more: More, behind: string, depth: nat)
    requires WellPiece(Number(base, first, more), depth) && Parted(Number(base, first, more), behind)
    ensures Element("%" + [base] + first + MoreText(more) + behind, depth) == Read(PieceNode(Number(base, first, more)), behind)
  {
    hide Numeric, Element, Worth, WellRun, PieceNode, Parted, RunsText;
    NumberText(base, first, MoreText(more), behind);
    assert base in "bBdDxX";
    NumberIs(base, first + MoreText(more) + behind, depth);
    match more
    case Alone =>
      assert "" + behind == behind;
      AloneRead(base, first, behind, depth);
    case To(last) =>
      DashText(last, behind);
      RangeRead(base, first, last, behind, depth);
    case Then(runs) =>
      SequenceRead(base, first, runs, behind, depth);
  }

  // ----- counts

  /** No digit and no star: what an element begins with. */
  predicate NoCount(s: string) {
    s != "" && !Digit10(s[0]) && s[0] != '*'
  }

  lemma CountRead(c: Count, behind: string)
    requires WellCount(c) && NoCount(behind)
    ensures Bounds(CountText(c) + behind) == Repeat(Least(c), Most(c), behind)
  {
    hide ReadDigits, DigitsLead, Bounds;
    match c
    case Uncounted =>
      assert "" + behind == behind;
      DigitsLeadAll("", behind);
      PlainBounds("", behind);
    case Exactly(n) =>
      DigitsLeadAll(n, behind);
      PlainBounds(n, behind);
    case Between(least, most) =>
      var rest := "*" + (most + behind);
      assert least + "*" + most + behind == least + rest;
      DigitsLeadAll(least, rest);
      DigitsLeadAll(most, behind);
      StarBounds(least, most, behind);
  }

  lemma NoAmount()
    ensures Amount("") == 0
  {
  }

  lemma PlainBounds(n: string, behind: string)
    requires WellDigits(n) && NoCount(behind) && DigitsLead(n + behind) == |n|
    ensures Bounds(n + behind) == if n == "" then Repeat(1, 1, behind) else Repeat(Amount(n), Amount(n), behind)
  {
    hide ReadDigits, DigitsLead;
    CutAt(n, behind);
    assert behind[0..] == behind;
  }

  lemma StarBounds(least: string, most: string, behind: string)
    requires WellCount(Between(least, most)) && NoCount(behind)
    requires DigitsLead(least + ("*" + (most + behind))) == |least| && DigitsLead(most + behind) == |most|
    ensures Bounds(least + ("*" + (most + behind))) == Repeat(Amount(least), if most == "" then -1 else Amount(most), behind)
  {
    hide ReadDigits, DigitsLead;
    CutAt(least, "*" + (most + behind));
    CutAt("*", most + behind);
    CutAt(most, behind);
    NoAmount();
  }

  // ----- the whole

  lemma {:induction false} SpacesOff(s: string, behind: string)
    requires AllSpaces(s) && (behind == "" || !Space(behind[0]))
    ensures Spaces(s + behind) == behind
  {
    if s == "" {
      assert s + behind == behind;
    } else {
      assert (s + behind)[0] == s[0] && (s + behind)[1..] == s[1..] + behind;
      SpacesOff(s[1..], behind);
    }
  }

  /** How a piece begins. */
  lemma PieceStart(p: Piece, behind: string, depth: nat)
    requires WellPiece(p, depth)
    ensures var s := PieceText(p) + behind; NoCount(s) && !Space(s[0]) && !Ends(s)
    ensures var s := PieceText(p) + behind; s[0] != '-' && s[0] != '.'
  {
    hide ChoiceText, MoreText, WellRun, WellChoice;
    if p.Chars? && p.mark != "" { assert (PieceText(p) + behind)[0] == p.mark[0]; }
  }

  lemma ItemStart(c: Count, p: Piece, behind: string, depth: nat)
    requires WellCount(c) && WellPiece(p, depth)
    ensures var s := CountText(c) + PieceText(p) + behind; s != "" && !Space(s[0]) && !Ends(s)
    ensures CountText(c) + PieceText(p) + behind == CountText(c) + (PieceText(p) + behind)
  {
    hide PieceText, WellPiece, Ends, ReadDigits;
    PieceStart(p, behind, depth);
    EndsFirst(PieceText(p) + behind);
    var s := CountText(c) + PieceText(p) + behind;
    assert s == CountText(c) + (PieceText(p) + behind);
    EndsFirst(s);
    if CountText(c) != "" { assert s[0] == CountText(c)[0]; }
  }

  lemma EndsFirst(s: string)
    requires s != ""
    ensures Ends(s) <==> s[0] == '/' || s[0] == ')' || s[0] == ']'
  {
  }

  /** A piece is read as what it means, and no further. */
  lemma {:induction false} PieceRead(p: Piece, behind: string, depth: nat)
    requires WellPiece(p, depth) && Parted(p, behind)
    ensures Element(PieceText(p) + behind, depth) == Read(PieceNode(p), behind)
    decreases p, 1
  {
    hide WellChoice, ChoiceText, ChoiceNode, WellRun, Element, MoreText;
    match p
    case Name(name) => NameRead(name, behind, depth);
    case Group(inner) =>
      ChoiceRead(inner, ")" + behind, depth + 1);
      BracketBack(ChoiceNode(inner), ChoiceText(inner), behind, depth, "(", ")");
    case Maybe(inner) =>
      ChoiceRead(inner, "]" + behind, depth + 1);
      BracketBack(ChoiceNode(inner), ChoiceText(inner), behind, depth, "[", "]");
    case Chars(mark, text) => CharsRead(mark, text, behind, depth);
    case Number(base, first, more) => NumberRead(base, first, more, behind, depth);
  }

  lemma CountedRead(c: Count, p: Piece, behind: string, depth: nat)
    requires WellCount(c) && WellPiece(p, depth) && Element(PieceText(p) + behind, depth) == Read(PieceNode(p), behind)
    ensures Repetition(CountText(c) + (PieceText(p) + behind), depth) == Read(Times(c, PieceNode(p)), behind)
  {
    hide Bounds, Element, PieceText, PieceNode, WellPiece, CountText;
    PieceStart(p, behind, depth);
    CountRead(c, PieceText(p) + behind);
  }

  /** Ends a choice: nothing is left, or a group is closed. */
  predicate Closed(rest: string) {
    rest == "" || rest[0] == ')' || rest[0] == ']'
  }

  /** In front of what ends a line, what follows the last item does not go on with it. */
  lemma PartedOn(p: Piece, gap: string, more: string, rest: string)
    requires Parted(p, gap + more) && AllSpaces(gap) && Ends(rest)
    ensures Parted(p, gap + more + rest)
  {
    if gap + more == "" { assert gap + more + rest == rest; } else { assert (gap + more + rest)[0] == (gap + more)[0]; }
  }

  lemma ItemsHead(items: seq<Item>, rest: string)
    requires items != []
    ensures var i := items[0];
            ItemsText(items) + rest == CountText(i.count) + (PieceText(i.piece) + (i.gap + (ItemsText(items[1..]) + rest)))
    ensures ItemNodes(items) == [Times(items[0].count, PieceNode(items[0].piece))] + ItemNodes(items[1..])
  {
    hide PieceText, PieceNode, CountText, Times;
    var i := items[0];
    FiveParts(CountText(i.count), PieceText(i.piece), i.gap, ItemsText(items[1..]), rest);
  }

  lemma FiveParts(a: string, b: string, c: string, d: string, e: string)
    ensures a + b + c + d + e == a + (b + (c + (d + e)))
  {
  }

  lemma ItemsStart(items: seq<Item>, rest: string, depth: nat)
    requires WellItems(items, depth) && Ends(rest)
    ensures var s := ItemsText(items) + rest; (s == "" || !Space(s[0])) && (items != [] ==> s != "" && !Ends(s))
  {
    hide ItemsText, PieceText, CountText, WellPiece, Ends;
    if items == [] {
      assert ItemsText([]) + rest == rest by { NoItems(); }
      EndsSpace(rest);
    } else {
      ItemsHead(items, rest);
      var i := items[0];
      ItemStart(i.count, i.piece, i.gap + (ItemsText(items[1..]) + rest), depth);
    }
  }

  lemma NoItems()
    ensures ItemsText([]) == "" && ItemNodes([]) == []
  {
  }

  lemma EndsSpace(rest: string)
    requires Ends(rest)
    ensures rest == "" || !Space(rest[0])
  {
  }

  /** What stands behind the first item's piece. */
  function BehindFirst(items: seq<Item>, rest: string): string
    requires items != []
  {
    items[0].gap + (ItemsText(items[1..]) + rest)
  }

  lemma FirstParted(items: seq<Item>, rest: string, depth: nat)
    requires WellItems(items, depth) && Ends(rest) && items != []
    ensures WellCount(items[0].count) && WellPiece(items[0].piece, depth) && Parted(items[0].piece, BehindFirst(items, rest))
  {
    hide ItemsText, WellPiece, WellCount, Ends, Parted;
    var i, more := items[0], ItemsText(items[1..]);
    PartedOn(i.piece, i.gap, more, rest);
    assert i.gap + more + rest == i.gap + (more + rest);
  }

  lemma FirstOn(done: seq<Node>, items: seq<Item>, rest: string, depth: nat)
    requires WellItems(items, depth) && Ends(rest) && items != []
    requires Element(PieceText(items[0].piece) + BehindFirst(items, rest), depth) == Read(PieceNode(items[0].piece), BehindFirst(items, rest))
    ensures Items(done, ItemsText(items) + rest, depth)
         == Items(done + [Times(items[0].count, PieceNode(items[0].piece))], ItemsText(items[1..]) + rest, depth)
  {
    hide ItemsText, PieceText, CountText, WellPiece, WellCount, PieceNode, Times, Repetition, Element, Items, Ends, Parted;
    var i, more := items[0], ItemsText(items[1..]) + rest;
    ItemsHead(items, rest);
    CountedRead(i.count, i.piece, i.gap + more, depth);
    ItemsStart(items, rest, depth);
    ItemsStart(items[1..], rest, depth);
    SpacesOff(i.gap, more);
    ItemsOn(done, ItemsText(items) + rest, depth, Times(i.count, PieceNode(i.piece)), i.gap + more);
  }

  lemma {:induction false} ItemsRead(done: seq<Node>, items: seq<Item>, rest: string, depth: nat)
    requires WellItems(items, depth) && Ends(rest) && (done != [] || items != [])
    ensures Items(done, ItemsText(items) + rest, depth) == Read(OneOr(done + ItemNodes(items), false), rest)
    decreases items, 0
  {
    hide ItemsText, PieceText, CountText, WellPiece, WellCount, PieceNode, Times, Items, Element, Ends, Parted, BehindFirst;
    if items == [] {
      NoItems();
      assert ItemsText([]) + rest == rest && done + ItemNodes([]) == done;
      ItemsEnd(done, rest, depth);
    } else {
      var i := items[0];
      FirstParted(items, rest, depth);
      PieceRead(i.piece, BehindFirst(items, rest), depth);
      FirstOn(done, items, rest, depth);
      ItemsHead(items, rest);
      var n := Times(i.count, PieceNode(i.piece));
      ItemsRead(done + [n], items[1..], rest, depth);
      assert done + ItemNodes(items) == done + [n] + ItemNodes(items[1..]);
    }
  }

  lemma ItemsEnd(done: seq<Node>, rest: string, depth: nat)
    requires Ends(rest) && done != []
    ensures Items(done, rest, depth) == Read(OneOr(done, false), rest)
  {
  }

  lemma ItemsOn(done: seq<Node>, s: string, depth: nat, n: Node, behind: string)
    requires !Ends(s) && Repetition(s, depth) == Read(n, behind)
    ensures Items(done, s, depth) == Items(done + [n], Spaces(behind), depth)
  {
  }

  lemma OneIs(nodes: seq<Node>)
    requires nodes != []
    ensures OneOr(nodes, false) == if |nodes| == 1 then nodes[0] else Cat(nodes)
    ensures OneOr(nodes, true) == if |nodes| == 1 then nodes[0] else Alt(nodes)
  {
  }

  lemma {:induction false} LineRead(l: Line, rest: string, depth: nat)
    requires WellLine(l, depth) && Ends(rest)
    ensures Concatenation(LineText(l) + rest, depth) == Read(LineNode(l), rest)
    decreases l, 1
  {
    hide ItemsText, ItemNodes, WellItems, Ends, Items;
    ItemsStart(l.items, rest, depth);
    assert LineText(l) + rest == l.lead + (ItemsText(l.items) + rest);
    SpacesOff(l.lead, ItemsText(l.items) + rest);
    ItemsRead([], l.items, rest, depth);
    assert [] + ItemNodes(l.items) == ItemNodes(l.items);
    OneIs(ItemNodes(l.items));
  }

  lemma SlashEnds(lines: seq<Line>, rest: string)
    requires Closed(rest)
    ensures Ends(SlashText(lines) + rest) && Spaces(SlashText(lines) + rest) == SlashText(lines) + rest
    ensures lines == [] ==> SlashText(lines) + rest == rest
    ensures lines != [] ==> var s := SlashText(lines) + rest; s != "" && s[0] == '/' && s[1..] == LineText(lines[0]) + (SlashText(lines[1..]) + rest)
  {
    hide LineText;
    if lines != [] {
      assert LinesText(lines) == LineText(lines[0]) + SlashText(lines[1..]);
      assert SlashText(lines) + rest == "/" + (LineText(lines[0]) + (SlashText(lines[1..]) + rest));
    } else {
      assert SlashText(lines) + rest == rest;
    }
  }

  lemma LineNodesHead(lines: seq<Line>)
    requires lines != []
    ensures LineNodes(lines) == [LineNode(lines[0])] + LineNodes(lines[1..])
  {
  }

  lemma NoLines()
    ensures LineNodes([]) == []
  {
  }

  lemma AlternativesOn(alts: seq<Node>, s: string, depth: nat, n: Node, behind: string)
    requires alts != [] && s != "" && s[0] == '/' && Concatenation(s[1..], depth) == Read(n, behind)
    ensures Alternatives(alts, s, depth) == Alternatives(alts + [n], Spaces(behind), depth)
  {
    hide Concatenation;
  }

  lemma AlternationOn(s: string, depth: nat, n: Node, behind: string)
    requires Concatenation(s, depth) == Read(n, behind)
    ensures Alternation(s, depth) == Alternatives([n], Spaces(behind), depth)
  {
    hide Concatenation, Alternatives, Spaces;
  }

  lemma AlternativesEnd(alts: seq<Node>, s: string, depth: nat)
    requires alts != [] && (s == "" || s[0] != '/')
    ensures Alternatives(alts, s, depth) == Read(OneOr(alts, true), s)
  {
  }

  lemma {:induction false} LinesRead(alts: seq<Node>, lines: seq<Line>, rest: string, depth: nat)
    requires WellLines(lines, depth) && Closed(rest) && alts != []
    ensures Alternatives(alts, SlashText(lines) + rest, depth) == Read(OneOr(alts + LineNodes(lines), true), rest)
    decreases lines, 1
  {
    hide LineText, LineNode, LineNodes, WellLine, Concatenation, Ends, Spaces, SlashText, Alternatives;
    SlashEnds(lines, rest);
    var s := SlashText(lines) + rest;
    if lines == [] {
      NoLines();
      assert alts + LineNodes(lines) == alts;
      AlternativesEnd(alts, s, depth);
    } else {
      SlashEnds(lines[1..], rest);
      LineRead(lines[0], SlashText(lines[1..]) + rest, depth);
      LineNodesHead(lines);
      AlternativesOn(alts, s, depth, LineNode(lines[0]), SlashText(lines[1..]) + rest);
      LinesRead(alts + [LineNode(lines[0])], lines[1..], rest, depth);
      assert alts + LineNodes(lines) == alts + [LineNode(lines[0])] + LineNodes(lines[1..]);
    }
  }

  lemma ChoiceHead(c: Choice, rest: string)
    requires c.lines != []
    ensures ChoiceText(c) + rest == LineText(c.lines[0]) + (SlashText(c.lines[1..]) + rest)
    ensures ChoiceNode(c) == OneOr([LineNode(c.lines[0])] + LineNodes(c.lines[1..]), true)
  {
    hide LineText, LineNode, SlashText;
    LineNodesHead(c.lines);
    OneIs(LineNodes(c.lines));
  }

  lemma {:induction false} ChoiceRead(c: Choice, rest: string, depth: nat)
    requires WellChoice(c, depth) && Closed(rest)
    ensures Alternation(ChoiceText(c) + rest, depth) == Read(ChoiceNode(c), rest)
    decreases c, 1
  {
    hide LineText, LineNode, LineNodes, ChoiceText, ChoiceNode, WellLine, Concatenation, Alternation, Ends, Spaces, SlashText, Alternatives, OneOr;
    var lines := c.lines;
    SlashEnds(lines[1..], rest);
    LineRead(lines[0], SlashText(lines[1..]) + rest, depth);
    ChoiceHead(c, rest);
    AlternationOn(ChoiceText(c) + rest, depth, LineNode(lines[0]), SlashText(lines[1..]) + rest);
    LinesRead([LineNode(lines[0])], lines[1..], rest, depth);
  }

  /** Elements spelled in any way are read as what they mean. */
  lemma SpellingRead(c: Choice)
    requires WellChoice(c, 0)
    ensures Elements(ChoiceText(c)) == Read(ChoiceNode(c), "")
  {
    hide WellChoice, ChoiceText, ChoiceNode, Alternation;
    ChoiceRead(c, "", 0);
    assert ChoiceText(c) + "" == ChoiceText(c);
  }
}
