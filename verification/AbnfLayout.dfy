/**
 The source of a grammar as it may be laid out (fReadRules, go/formatgrammar.go:147-238): line
 endings, comments, blank lines, rules that go on over several lines, and rules extended by
 others, told of the lines and proved of the reader.
 */
module AbnfLayout {
  import opened Options
  import opened Grammar
  import opened UnifiedDiff
  import opened AbnfText
  import opened AbnfRules
  import opened AbnfSource
  import opened AbnfSpelling
  import opened AbnfSpelled

  // ----- comments

  /** Part of a line: plain text, a string, or a prose value. */
  datatype Seg = Bare(t: string) | Quoting(t: string) | Prose(t: string)

  /** A line in parts; a string or prose value that is never closed takes the rest of the line. */
  datatype Cut = Cut(segs: seq<Seg>, open: string, comment: string)

  function SegText(g: Seg): string {
    match g
    case Bare(t) => t
    case Quoting(t) => "\"" + t + "\""
    case Prose(t) => "<" + t + ">"
  }

  function SegsText(segs: seq<Seg>): string {
    if segs == [] then "" else SegText(segs[0]) + SegsText(segs[1..])
  }

  predicate WellSeg(g: Seg) {
    match g
    case Bare(t) => '"' !in t && '<' !in t && ';' !in t
    case Quoting(t) => '"' !in t
    case Prose(t) => '>' !in t
  }

  predicate WellCut(c: Cut) {
    && (forall i :: 0 <= i < |c.segs| ==> WellSeg(c.segs[i]))
    && (c.open == "" || (c.open[0] == '"' && '"' !in c.open[1..]) || (c.open[0] == '<' && '>' !in c.open[1..]))
    && (c.comment == "" || (c.open == "" && c.comment[0] == ';'))
  }

  function CutText(c: Cut): string {
    SegsText(c.segs) + c.open + c.comment
  }

  lemma {:induction false} HeldOpen(t: string, quote: char)
    requires quote != '\0' && quote !in t
    ensures Kept(t, quote) == |t| && State(t, quote) == quote
  {
    if t != "" {
      assert t[0] in t && forall c :: c in t[1..] ==> c in t;
      HeldOpen(t[1..], quote);
    }
  }

  lemma ClosedQuote(t: string, quote: char)
    requires quote != '\0' && quote !in t
    ensures Kept(t + [quote], quote) == |t| + 1 && State(t + [quote], quote) == '\0'
  {
    HeldOpen(t, quote);
    KeptAppend(t, [quote], quote);
    OneKept(quote);
  }

  lemma OneKept(quote: char)
    requires quote != '\0'
    ensures Kept([quote], quote) == 1 && State([quote], quote) == '\0'
  {
    assert [quote][1..] == "";
  }

  lemma {:induction false} BareKept(t: string)
    requires '"' !in t && '<' !in t && ';' !in t
    ensures Kept(t, '\0') == |t| && State(t, '\0') == '\0'
  {
    if t != "" {
      assert t[0] in t && forall c :: c in t[1..] ==> c in t;
      BareKept(t[1..]);
    }
  }

  lemma SegKept(g: Seg)
    requires WellSeg(g)
    ensures Kept(SegText(g), '\0') == |SegText(g)| && State(SegText(g), '\0') == '\0'
  {
    match g
    case Bare(t) => BareKept(t);
    case Quoting(t) =>
      assert SegText(g)[1..] == t + ['"'];
      ClosedQuote(t, '"');
    case Prose(t) =>
      assert SegText(g)[1..] == t + ['>'];
      ClosedQuote(t, '>');
  }

  lemma {:induction false} SegsKept(segs: seq<Seg>)
    requires forall i :: 0 <= i < |segs| ==> WellSeg(segs[i])
    ensures Kept(SegsText(segs), '\0') == |SegsText(segs)| && State(SegsText(segs), '\0') == '\0'
  {
    hide WellSeg, SegText;
    if segs != [] {
      SegKept(segs[0]);
      SegsKept(segs[1..]);
      KeptAppend(SegText(segs[0]), SegsText(segs[1..]), '\0');
    }
  }

  lemma OpenKept(open: string, comment: string)
    requires open == "" || (open[0] == '"' && '"' !in open[1..]) || (open[0] == '<' && '>' !in open[1..])
    requires comment == "" || (open == "" && comment[0] == ';')
    ensures Kept(open + comment, '\0') == |open|
  {
    if open == "" {
      assert open + comment == comment;
    } else {
      assert open + comment == open;
      HeldOpen(open[1..], QuoteOn(open[0], '\0'));
    }
  }

  /** A comment is cut off, and nothing else. */
  lemma CommentCut(c: Cut)
    requires WellCut(c)
    ensures Uncomment(CutText(c)) == SegsText(c.segs) + c.open
  {
    hide Kept, State, WellSeg, SegsText;
    SegsKept(c.segs);
    OpenKept(c.open, c.comment);
    KeptAppend(SegsText(c.segs), c.open + c.comment, '\0');
    var line, kept := CutText(c), SegsText(c.segs) + c.open;
    assert line == SegsText(c.segs) + (c.open + c.comment);
    assert line[..|kept|] == kept;
  }

  lemma SegsCons(g: Seg, segs: seq<Seg>)
    ensures SegsText([g] + segs) == SegText(g) + SegsText(segs)
  {
    assert ([g] + segs)[1..] == segs;
  }

  lemma CutCons(g: Seg, c: Cut)
    requires WellSeg(g) && WellCut(c)
    ensures WellCut(Cut([g] + c.segs, c.open, c.comment)) && CutText(Cut([g] + c.segs, c.open, c.comment)) == SegText(g) + CutText(c)
  {
    hide WellSeg, SegText;
    var d := Cut([g] + c.segs, c.open, c.comment);
    SegsCons(g, c.segs);
    forall i | 0 <= i < |d.segs| ensures WellSeg(d.segs[i]) { if 0 < i { assert d.segs[i] == c.segs[i - 1]; } }
    assert SegText(g) + SegsText(c.segs) + c.open + c.comment == SegText(g) + (SegsText(c.segs) + c.open + c.comment);
  }

  /** Where a character first stands, or the length. */
  function FirstAt(s: string, c: char): (k: nat)
    ensures k <= |s| && c !in s[..k] && (k < |s| ==> s[k] == c)
  {
    if s == "" || s[0] == c then 0
    else
      assert s[..1 + FirstAt(s[1..], c)] == [s[0]] + s[1..][..FirstAt(s[1..], c)];
      1 + FirstAt(s[1..], c)
  }

  /** Every line has such parts. */
  lemma {:induction false} CutOf(line: string) returns (c: Cut)
    ensures WellCut(c) && CutText(c) == line
    decreases |line|
  {
    hide FirstAt, WellSeg;
    if line == "" || line[0] == ';' {
      c := Cut([], "", line);
      assert SegsText([]) + "" + line == line;
    } else if line[0] == '"' || line[0] == '<' {
      var end := if line[0] == '"' then '"' else '>';
      var k := FirstAt(line[1..], end);
      if k == |line[1..]| {
        assert line[1..][..k] == line[1..];
        c := Cut([], line, "");
        assert SegsText([]) + line + "" == line;
      } else {
        var g := if line[0] == '"' then Quoting(line[1..][..k]) else Prose(line[1..][..k]);
        var rest := CutOf(line[k + 2..]);
        SegIs(g);
        CutCons(g, rest);
        c := Cut([g] + rest.segs, rest.open, rest.comment);
        EndedAt(line, k, end);
      }
    } else {
      var rest := CutOf(line[1..]);
      SegIs(Bare([line[0]]));
      CutCons(Bare([line[0]]), rest);
      c := Cut([Bare([line[0]])] + rest.segs, rest.open, rest.comment);
      assert line == [line[0]] + line[1..];
    }
  }

  lemma SegIs(g: Seg)
    ensures WellSeg(g) <==> match g case Bare(t) => '"' !in t && '<' !in t && ';' !in t case Quoting(t) => '"' !in t case Prose(t) => '>' !in t
  {
  }

  lemma EndedAt(line: string, k: nat, end: char)
    requires line != "" && k < |line[1..]| && line[1..][k] == end
    ensures line == [line[0]] + line[1..][..k] + [end] + line[k + 2..]
  {
    assert line[1..] == line[1..][..k] + [line[1..][k]] + line[1..][k + 1..];
    assert line[1..][k + 1..] == line[k + 2..];
    assert line == [line[0]] + line[1..];
  }

  // ----- rows

  /** A line, and what stands on it in front of its comment: text with space around it, or none. */
  datatype Row = Row(cut: Cut, lead: string, text: string, trail: string)

  predicate Trimmed(s: string) {
    s != "" && !Space(s[0]) && !Space(s[|s| - 1])
  }

  predicate WellRow(r: Row) {
    && WellCut(r.cut) && AllSpaces(r.lead) && AllSpaces(r.trail) && (r.text == "" || Trimmed(r.text))
    && SegsText(r.cut.segs) + r.cut.open == r.lead + r.text + r.trail
  }

  function RowLine(r: Row): string {
    CutText(r.cut)
  }

  function RowLines(rows: seq<Row>): (ls: seq<string>)
    ensures |ls| == |rows| && forall i :: 0 <= i < |rows| ==> ls[i] == RowLine(rows[i])
  {
    seq(|rows|, i requires 0 <= i < |rows| => RowLine(rows[i]))
  }

  /** A row that begins a definition, and one that goes on with it. */
  predicate Starts(r: Row) {
    r.text != "" && r.lead == ""
  }

  predicate Continues(r: Row) {
    r.text != "" && r.lead != ""
  }

  lemma {:induction false} TrimRightOff(s: string, trail: string)
    requires Trimmed(s) && AllSpaces(trail)
    ensures TrimRight(s + trail) == s
  {
    if trail == "" {
      assert s + trail == s;
    } else {
      var t := s + trail;
      assert t[|t| - 1] == trail[|trail| - 1] && t[..|t| - 1] == s + trail[..|trail| - 1];
      TrimRightOff(s, trail[..|trail| - 1]);
    }
  }

  lemma RowKept(r: Row)
    requires WellRow(r)
    ensures Uncomment(RowLine(r)) == r.lead + r.text + r.trail
    ensures Spaces(r.lead + r.text + r.trail) == "" <==> r.text == ""
    ensures r.text != "" ==> Trim(r.lead + r.text + r.trail) == r.text
    ensures r.text != "" ==> (Space((r.lead + r.text + r.trail)[0]) <==> r.lead != "")
  {
    hide Spaces, TrimRight, Uncomment, SegsText, WellCut;
    CommentCut(r.cut);
    var kept := r.lead + r.text + r.trail;
    if r.text == "" {
      assert kept == r.lead + r.trail + "";
      SpacesOff(r.lead + r.trail, "");
    } else {
      assert kept == r.lead + (r.text + r.trail);
      SpacesOff(r.lead, r.text + r.trail);
      TrimRightOff(r.text, r.trail);
      if r.lead == "" { assert kept[0] == r.text[0]; } else { assert kept[0] == r.lead[0]; }
    }
  }

  /** One row more. */
  lemma RowStep(ls: seq<string>, r: Row)
    requires WellRow(r)
    ensures var before, now := Defs(ls), Defs(ls + [RowLine(r)]);
            if before.None? || r.text == "" then now == before
            else if r.lead == "" then now == Some(before.value + [r.text])
            else if before.value == [] then now == None
            else now == Some(before.value[|before.value| - 1 := before.value[|before.value| - 1] + " " + r.text])
  {
    hide Spaces, Trim, Uncomment, WellRow, RowLine;
    RowKept(r);
    assert (ls + [RowLine(r)])[..|ls|] == ls;
  }

  // ----- definitions over rows

  ghost predicate WellBlock(rows: seq<Row>) {
    && rows != [] && (forall i :: 0 <= i < |rows| ==> WellRow(rows[i]))
    && Starts(rows[0]) && forall i :: 0 < i < |rows| ==> !Starts(rows[i])
  }

  /** What a definition's rows say: the texts on them, a space between one and the next. */
  function BlockText(rows: seq<Row>): string {
    if rows == [] then ""
    else if |rows| == 1 then rows[0].text
    else
      var last := rows[|rows| - 1].text;
      BlockText(rows[..|rows| - 1]) + if last == "" then "" else " " + last
  }

  ghost predicate BlankRows(rows: seq<Row>) {
    forall i :: 0 <= i < |rows| ==> WellRow(rows[i]) && rows[i].text == ""
  }

  function BlocksLines(blocks: seq<seq<Row>>): seq<string> {
    if blocks == [] then [] else BlocksLines(blocks[..|blocks| - 1]) + RowLines(blocks[|blocks| - 1])
  }

  /** Blank rows and comments, then definitions, each from the row that begins it on. */
  ghost predicate Laid(front: seq<Row>, blocks: seq<seq<Row>>, lines: seq<string>) {
    BlankRows(front) && (forall i :: 0 <= i < |blocks| ==> WellBlock(blocks[i])) && lines == RowLines(front) + BlocksLines(blocks)
  }

  function BlockTexts(blocks: seq<seq<Row>>): (ds: seq<string>)
    ensures |ds| == |blocks| && forall i :: 0 <= i < |blocks| ==> ds[i] == BlockText(blocks[i])
  {
    seq(|blocks|, i requires 0 <= i < |blocks| => BlockText(blocks[i]))
  }

  lemma RowsLast(rows: seq<Row>)
    requires rows != []
    ensures RowLines(rows) == RowLines(rows[..|rows| - 1]) + [RowLine(rows[|rows| - 1])]
  {
    hide RowLine;
  }

  lemma {:induction false} BlanksDefs(rows: seq<Row>)
    requires BlankRows(rows)
    ensures Defs(RowLines(rows)) == Some([])
    decreases |rows|
  {
    hide WellRow, RowLine, Defs;
    if rows == [] {
      NoDefs();
      assert RowLines(rows) == [];
    } else {
      var n := |rows| - 1;
      BlanksDefs(rows[..n]);
      RowsLast(rows);
      RowStep(RowLines(rows[..n]), rows[n]);
    }
  }

  lemma NoDefs()
    ensures Defs([]) == Some([])
  {
  }

  lemma BlockFront(rows: seq<Row>)
    requires WellBlock(rows) && 1 < |rows|
    ensures var n := |rows| - 1;
            && WellBlock(rows[..n]) && WellRow(rows[n]) && !Starts(rows[n])
            && BlockText(rows) == BlockText(rows[..n]) + if rows[n].text == "" then "" else " " + rows[n].text
  {
    hide WellRow;
  }

  lemma LastGrown(ds: seq<string>, text: string, more: string)
    ensures var was := ds + [text];
            was[|was| - 1 := was[|was| - 1] + " " + more] == ds + [text + (" " + more)]
  {
    assert text + " " + more == text + (" " + more);
  }

  lemma {:induction false} BlockDefs(ls: seq<string>, rows: seq<Row>, ds: seq<string>)
    requires Defs(ls) == Some(ds) && WellBlock(rows)
    ensures Defs(ls + RowLines(rows)) == Some(ds + [BlockText(rows)])
    decreases |rows|
  {
    hide WellRow, RowLine, Defs, BlockText;
    var n := |rows| - 1;
    RowsLast(rows);
    if n == 0 {
      assert rows[..0] == [] && RowLines(rows[..0]) == [];
      assert ls + RowLines(rows) == ls + [RowLine(rows[0])];
      RowStep(ls, rows[0]);
      OneText(rows);
    } else {
      BlockFront(rows);
      BlockDefs(ls, rows[..n], ds);
      var before := ls + RowLines(rows[..n]);
      assert ls + RowLines(rows) == before + [RowLine(rows[n])];
      RowStep(before, rows[n]);
      LastGrown(ds, BlockText(rows[..n]), rows[n].text);
      assert rows[n].text == "" ==> BlockText(rows[..n]) + "" == BlockText(rows[..n]);
    }
  }

  lemma OneText(rows: seq<Row>)
    requires |rows| == 1
    ensures BlockText(rows) == rows[0].text
  {
  }

  /** The definitions of a source laid out are the texts of its definitions' rows. */
  lemma {:induction false} LayoutDefs(front: seq<Row>, blocks: seq<seq<Row>>, lines: seq<string>)
    requires Laid(front, blocks, lines)
    ensures Defs(lines) == Some(BlockTexts(blocks))
    decreases |blocks|
  {
    hide WellBlock, BlankRows, BlockText, RowLines, Defs;
    if blocks == [] {
      BlanksDefs(front);
      assert lines == RowLines(front) && BlockTexts(blocks) == [];
    } else {
      var n := |blocks| - 1;
      var ls := RowLines(front) + BlocksLines(blocks[..n]);
      LayoutDefs(front, blocks[..n], ls);
      BlockDefs(ls, blocks[n], BlockTexts(blocks[..n]));
      assert lines == ls + RowLines(blocks[n]);
      assert BlockTexts(blocks) == BlockTexts(blocks[..n]) + [BlockText(blocks[n])];
    }
  }

  // ----- every source that is read is laid out

  lemma {:induction false} TrimCut(s: string) returns (trail: string)
    ensures AllSpaces(trail) && s == TrimRight(s) + trail
    ensures TrimRight(s) == "" || !Space(TrimRight(s)[|TrimRight(s)| - 1])
  {
    if s != "" && Space(s[|s| - 1]) {
      var more := TrimCut(s[..|s| - 1]);
      trail := more + [s[|s| - 1]];
      assert s == s[..|s| - 1] + [s[|s| - 1]];
    } else {
      trail := "";
    }
  }

  lemma RowOf(line: string) returns (r: Row)
    ensures WellRow(r) && RowLine(r) == line
  {
    hide WellCut, CutText, SegsText, TrimRight, Spaces;
    var c := CutOf(line);
    var kept := SegsText(c.segs) + c.open;
    var lead := SpaceCut(kept);
    var trail := TrimCut(Spaces(kept));
    var text := TrimRight(Spaces(kept));
    r := Row(c, lead, text, trail);
    assert kept == lead + text + trail;
    if text != "" { assert Spaces(kept)[0] == text[0]; }
  }

  lemma BlockPush(rows: seq<Row>, r: Row)
    requires WellBlock(rows) && WellRow(r) && !Starts(r)
    ensures WellBlock(rows + [r]) && RowLines(rows + [r]) == RowLines(rows) + [RowLine(r)]
  {
    hide WellRow, RowLine;
    var more := rows + [r];
    assert forall i :: 0 <= i < |rows| ==> more[i] == rows[i];
    RowsLast(more);
    assert more[..|rows|] == rows;
  }

  lemma BlockOne(r: Row)
    requires WellRow(r) && Starts(r)
    ensures WellBlock([r]) && RowLines([r]) == [RowLine(r)]
  {
  }

  lemma BlocksPush(blocks: seq<seq<Row>>, rows: seq<Row>)
    ensures BlocksLines(blocks + [rows]) == BlocksLines(blocks) + RowLines(rows)
  {
    assert (blocks + [rows])[..|blocks|] == blocks;
  }

  lemma BlanksPush(front: seq<Row>, r: Row)
    requires BlankRows(front) && WellRow(r) && r.text == ""
    ensures BlankRows(front + [r]) && RowLines(front + [r]) == RowLines(front) + [RowLine(r)]
  {
    hide WellRow, RowLine;
    RowsLast(front + [r]);
    assert (front + [r])[..|front|] == front;
  }

  lemma LaidStart(front: seq<Row>, blocks: seq<seq<Row>>, lines: seq<string>, r: Row)
    requires Laid(front, blocks, lines) && WellRow(r) && Starts(r)
    ensures Laid(front, blocks + [[r]], lines + [RowLine(r)])
  {
    hide WellRow, WellBlock, RowLine, RowLines, BlankRows, BlocksLines;
    var bs := blocks + [[r]];
    BlockOne(r);
    BlocksPush(blocks, [r]);
    assert forall i :: 0 <= i < |blocks| ==> bs[i] == blocks[i];
    Shift(RowLines(front), BlocksLines(blocks), RowLines([r]));
  }

  lemma Shift(a: seq<string>, b: seq<string>, c: seq<string>)
    ensures a + (b + c) == (a + b) + c
  {
  }

  lemma LaidBlank(front: seq<Row>, lines: seq<string>, r: Row)
    requires Laid(front, [], lines) && WellRow(r) && r.text == ""
    ensures Laid(front + [r], [], lines + [RowLine(r)])
  {
    hide WellRow, WellBlock, RowLine, RowLines, BlankRows;
    BlanksPush(front, r);
    assert BlocksLines([]) == [];
    assert lines == RowLines(front);
  }

  lemma LaidOn(front: seq<Row>, blocks: seq<seq<Row>>, lines: seq<string>, r: Row)
    requires Laid(front, blocks, lines) && WellRow(r) && !Starts(r) && blocks != []
    ensures Laid(front, blocks[..|blocks| - 1] + [blocks[|blocks| - 1] + [r]], lines + [RowLine(r)])
  {
    hide WellRow, WellBlock, RowLine, RowLines, BlankRows, BlocksLines;
    var n := |blocks| - 1;
    var last := blocks[n] + [r];
    BlockPush(blocks[n], r);
    BlocksPush(blocks[..n], last);
    BlocksPush(blocks[..n], blocks[n]);
    assert blocks == blocks[..n] + [blocks[n]];
    assert forall i :: 0 <= i < n ==> (blocks[..n] + [last])[i] == blocks[i];
    Shift(BlocksLines(blocks[..n]), RowLines(blocks[n]), [RowLine(r)]);
    Shift(RowLines(front), BlocksLines(blocks), [RowLine(r)]);
  }

  /** A layout with one row more, where the row has its place. */
  lemma LaidPush(front: seq<Row>, blocks: seq<seq<Row>>, lines: seq<string>, r: Row) returns (f: seq<Row>, bs: seq<seq<Row>>)
    requires Laid(front, blocks, lines) && WellRow(r) && (Continues(r) ==> blocks != [])
    ensures Laid(f, bs, lines + [RowLine(r)])
  {
    hide WellRow, RowLine, Laid;
    if Starts(r) {
      f, bs := front, blocks + [[r]];
      LaidStart(front, blocks, lines, r);
    } else if blocks == [] {
      f, bs := front + [r], [];
      LaidBlank(front, lines, r);
    } else {
      f, bs := front, blocks[..|blocks| - 1] + [blocks[|blocks| - 1] + [r]];
      LaidOn(front, blocks, lines, r);
    }
  }

  lemma {:induction false} LayoutOf(lines: seq<string>) returns (front: seq<Row>, blocks: seq<seq<Row>>)
    requires Defs(lines).Some?
    ensures Laid(front, blocks, lines)
    decreases |lines|
  {
    hide WellRow, RowLine, Laid;
    if lines == [] {
      front, blocks := [], [];
      NothingLaid();
    } else {
      var n := |lines| - 1;
      var r := RowOf(lines[n]);
      assert lines == lines[..n] + [lines[n]];
      front, blocks := LayoutOf(lines[..n]);
      LayoutDefs(front, blocks, lines[..n]);
      RowStep(lines[..n], r);
      front, blocks := LaidPush(front, blocks, lines[..n], r);
    }
  }

  lemma NothingLaid()
    ensures Laid([], [], [])
  {
  }

  /** The lines of a source have these definitions exactly where they are laid out so. */
  lemma DefsIff(lines: seq<string>, ds: seq<string>)
    ensures Defs(lines) == Some(ds) <==> exists front, blocks :: Laid(front, blocks, lines) && BlockTexts(blocks) == ds
  {
    hide Laid, Defs, BlockTexts;
    if Defs(lines) == Some(ds) {
      var front, blocks := LayoutOf(lines);
      LayoutDefs(front, blocks, lines);
      assert Laid(front, blocks, lines) && BlockTexts(blocks) == ds;
    }
    if front, blocks :| Laid(front, blocks, lines) && BlockTexts(blocks) == ds {
      LayoutDefs(front, blocks, lines);
    }
  }

  /** A row that goes on with a definition is refused where none is begun. */
  lemma ContinuedFirst(front: seq<Row>, r: Row, behind: seq<string>)
    requires BlankRows(front) && WellRow(r) && Continues(r)
    ensures Defs(RowLines(front) + [RowLine(r)] + behind).None?
  {
    hide WellRow, RowLine, RowLines, Defs, BlankRows;
    var ls := RowLines(front) + [RowLine(r)];
    BlanksDefs(front);
    RowStep(RowLines(front), r);
    assert (ls + behind)[..|ls|] == ls;
    DefsNone(ls + behind, |ls|);
  }

  // ----- one definition

  ghost predicate WellName(name: string) {
    name != "" && Letter(name[0]) && forall i :: 0 <= i < |name| ==> NameChar(name[i])
  }

  function SignText(more: bool): string {
    if more then "=/" else "="
  }

  /** A name, an equals sign, and elements in some spelling. */
  ghost predicate DefSpelled(text: string, d: Def) {
    exists gap, c :: DefParts(text, d, gap, c)
  }

  ghost predicate DefParts(text: string, d: Def, gap: string, c: Choice) {
    && WellName(d.name) && AllSpaces(gap) && WellChoice(c, 0) && d.node == ChoiceNode(c)
    && text == d.name + (gap + (SignText(d.more) + ChoiceText(c)))
  }

  lemma ElementsSpaces(s: string)
    ensures Elements(Spaces(s)) == Elements(s)
  {
    hide Items;
    SpacesTwice(s);
    assert Concatenation(Spaces(s), 0) == Concatenation(s, 0);
  }

  lemma {:induction false} SpacesTwice(s: string)
    ensures Spaces(Spaces(s)) == Spaces(s)
  {
    if s != "" && Space(s[0]) { SpacesTwice(s[1..]); }
  }

  /** Elements begin with no slash. */
  lemma NoSlashFirst(c: Choice)
    requires WellChoice(c, 0)
    ensures ChoiceText(c) != "" && ChoiceText(c)[0] != '/'
  {
    hide ItemsText, WellItems, SlashText, WellLines;
    var l := c.lines[0];
    assert WellLine(l, 0) by { FirstWell(c); }
    ItemsStart(l.items, "", 0);
    assert ItemsText(l.items) + "" == ItemsText(l.items);
    ChoiceHead(c, "");
    assert ChoiceText(c) + "" == ChoiceText(c);
    if l.lead != "" { assert ChoiceText(c)[0] == l.lead[0]; } else { assert LineText(l) == ItemsText(l.items); }
  }

  lemma FirstWell(c: Choice)
    requires WellChoice(c, 0)
    ensures c.lines != [] && WellLine(c.lines[0], 0) && WellLines(c.lines[1..], 0)
  {
  }

  lemma NameCut(name: string, behind: string)
    requires WellName(name) && behind != "" && !NameChar(behind[0])
    ensures var s := name + behind; NameLead(s) == |name| && s[..|name|] == name && s[|name|..] == behind && s[0] == name[0]
  {
    NameRun(name, behind);
  }

  lemma SignCut(gap: string, more: bool, elements: string)
    requires AllSpaces(gap) && elements != "" && elements[0] != '/'
    ensures var s := gap + (SignText(more) + elements);
            var behind := Spaces(s);
            s != "" && !NameChar(s[0]) && behind != "" && behind[0] == '=' && (more <==> 1 < |behind| && behind[1] == '/')
            && behind[if more then 2 else 1..] == elements
  {
    var behind := SignText(more) + elements;
    SpacesOff(gap, behind);
    if gap == "" { assert gap + behind == behind; } else { assert (gap + behind)[0] == gap[0]; }
  }

  lemma PartsRead(text: string, d: Def, gap: string, c: Choice)
    requires DefParts(text, d, gap, c)
    ensures ReadDef(text) == Some(d)
  {
    hide WellChoice, ChoiceText, ChoiceNode, Elements, Spaces, NameLead, SignText;
    NoSlashFirst(c);
    SignCut(gap, d.more, ChoiceText(c));
    NameCut(d.name, gap + (SignText(d.more) + ChoiceText(c)));
    ElementsSpaces(ChoiceText(c));
    SpellingRead(c);
  }

  /** More space in front of elements. */
  lemma LeadMore(c: Choice, lead: string) returns (d: Choice)
    requires WellChoice(c, 0) && AllSpaces(lead)
    ensures WellChoice(d, 0) && ChoiceText(d) == lead + ChoiceText(c) && ChoiceNode(d) == ChoiceNode(c)
  {
    hide ItemsText, WellItems, SlashText, WellLines, LineNodes, ItemNodes;
    FirstWell(c);
    var l := c.lines[0];
    var m := Line(lead + l.lead, l.items);
    d := Choice([m] + c.lines[1..]);
    LinesCons(m, c.lines[1..], 0);
    assert d.lines[0] == m && d.lines[1..] == c.lines[1..];
    ChoiceHead(c, "");
    ChoiceHead(d, "");
    LeadText(lead, l.lead, ItemsText(l.items), SlashText(c.lines[1..]));
    assert ChoiceText(d) + "" == ChoiceText(d) && ChoiceText(c) + "" == ChoiceText(c);
  }

  lemma LeadText(a: string, b: string, i: string, s: string)
    ensures (a + b) + i + (s + "") == a + (b + i + (s + ""))
  {
  }

  lemma DefOf(text: string) returns (gap: string, c: Choice)
    requires ReadDef(text).Some?
    ensures DefParts(text, ReadDef(text).value, gap, c)
  {
    hide WellChoice, ChoiceText, ChoiceNode, Elements, Spaces, NameLead, Spells;
    var k := NameLead(text);
    NameMost(text);
    gap := SpaceCut(text[k..]);
    var behind := Spaces(text[k..]);
    var d := ReadDef(text).value;
    var elements := behind[if d.more then 2 else 1..];
    ElementsWhole(Spaces(elements));
    ReadIff(Spaces(elements), d.node);
    c := SpelledOf(Spaces(elements), d.node);
    var lead := SpaceCut(elements);
    c := LeadMore(c, lead);
    assert behind == SignText(d.more) + elements;
    assert text == text[..k] + text[k..];
  }

  lemma SpelledOf(s: string, n: Node) returns (c: Choice)
    requires Spells(s, n)
    ensures WellChoice(c, 0) && ChoiceText(c) == s && ChoiceNode(c) == n
  {
    c :| WellChoice(c, 0) && ChoiceText(c) == s && ChoiceNode(c) == n;
  }

  /** A definition is read exactly where it is spelled, as what it says. */
  lemma DefIff(text: string, d: Def)
    ensures ReadDef(text) == Some(d) <==> DefSpelled(text, d)
  {
    hide ReadDef, DefParts;
    if ReadDef(text) == Some(d) {
      var gap, c := DefOf(text);
      assert DefParts(text, d, gap, c);
    }
    if DefSpelled(text, d) {
      var gap, c :| DefParts(text, d, gap, c);
      PartsRead(text, d, gap, c);
    }
  }

  // ----- the table

  ghost predicate Earlier(ds: seq<Def>, i: nat)
    requires i < |ds|
  {
    exists j :: 0 <= j < i && InLower(ds[j].name) == InLower(ds[i].name)
  }

  /** What is defined is defined once, and what extends extends what was defined. */
  ghost predicate InTurn(ds: seq<Def>) {
    forall i :: 0 <= i < |ds| ==> (ds[i].more <==> Earlier(ds, i))
  }

  function AltsOf(n: Node): seq<Node> {
    if n.Alt? then n.kids else [n]
  }

  /** The alternatives of all definitions of a name, in their order. */
  function AllAlts(ds: seq<Def>, name: string): seq<Node> {
    if ds == [] then []
    else
      var last := ds[|ds| - 1];
      AllAlts(ds[..|ds| - 1], name) + if InLower(last.name) == name then AltsOf(last.node) else []
  }

  /** How many definitions a name has. */
  function Defined(ds: seq<Def>, name: string): nat {
    if ds == [] then 0 else Defined(ds[..|ds| - 1], name) + if InLower(ds[|ds| - 1].name) == name then 1 else 0
  }

  /** The names defined, in their order. */
  function NamesOf(ds: seq<Def>): seq<string> {
    if ds == [] then []
    else NamesOf(ds[..|ds| - 1]) + if ds[|ds| - 1].more then [] else [InLower(ds[|ds| - 1].name)]
  }

  /** The rule of a name: its one definition, or the alternatives of all. */
  ghost predicate RuleIs(ds: seq<Def>, name: string, n: Node) {
    if Defined(ds, name) == 1 then exists i :: 0 <= i < |ds| && InLower(ds[i].name) == name && n == ds[i].node
    else n == Alt(AllAlts(ds, name))
  }

  ghost predicate IsTable(ds: seq<Def>, t: Table) {
    && t.Table? && t.order == NamesOf(ds) && t.start == (if ds == [] then "" else ds[0].name)
    && (forall name :: name in t.rules <==> 0 < Defined(ds, name))
    && (forall name :: name in t.rules ==> RuleIs(ds, name, t.rules[name]) && AltsOf(t.rules[name]) == AllAlts(ds, name))
  }

  lemma {:induction false} DefinedIs(ds: seq<Def>, name: string)
    ensures 0 < Defined(ds, name) <==> exists j :: 0 <= j < |ds| && InLower(ds[j].name) == name
  {
    hide InLower;
    if ds != [] {
      var n := |ds| - 1;
      DefinedIs(ds[..n], name);
      if j :| 0 <= j < n && InLower(ds[j].name) == name { assert InLower(ds[..n][j].name) == name; }
    }
  }

  lemma EarlierFront(ds: seq<Def>, n: nat, i: nat)
    requires i < n <= |ds|
    ensures Earlier(ds, i) <==> Earlier(ds[..n], i)
  {
    hide InLower;
    var front := ds[..n];
    assert forall j :: 0 <= j <= i ==> front[j] == ds[j];
  }

  lemma EarlierLast(ds: seq<Def>)
    requires ds != []
    ensures var n := |ds| - 1; Earlier(ds, n) <==> 0 < Defined(ds[..n], InLower(ds[n].name))
  {
    hide InLower;
    var n := |ds| - 1;
    var front := ds[..n];
    DefinedIs(front, InLower(ds[n].name));
    assert forall j :: 0 <= j < n ==> front[j] == ds[j];
  }

  lemma EarlierIs(ds: seq<Def>)
    requires ds != []
    ensures var n := |ds| - 1; InTurn(ds) <==> InTurn(ds[..n]) && (ds[n].more <==> 0 < Defined(ds[..n], InLower(ds[n].name)))
  {
    hide InLower, Earlier;
    var n := |ds| - 1;
    var front := ds[..n];
    EarlierLast(ds);
    forall i | 0 <= i < n ensures front[i] == ds[i] && (Earlier(ds, i) <==> Earlier(front, i)) { EarlierFront(ds, n, i); }
    if InTurn(front) && (ds[n].more <==> Earlier(ds, n)) {
      forall i | 0 <= i < |ds| ensures ds[i].more <==> Earlier(ds, i) { if i < n { assert front[i].more <==> Earlier(front, i); } }
    }
  }

  lemma AltsJoin(a: seq<Node>, b: seq<Node>)
    ensures AltsOf(Alt(a + b)) == a + b
  {
  }

  /** A name's rule after one definition more. */
  lemma RuleMore(ds: seq<Def>, name: string, n: Node)
    requires ds != []
    requires var k := |ds| - 1;
             if InLower(ds[k].name) != name then RuleIs(ds[..k], name, n) && 0 < Defined(ds[..k], name)
             else if ds[k].more then 0 < Defined(ds[..k], name) && n == Alt(AllAlts(ds, name))
             else Defined(ds[..k], name) == 0 && n == ds[k].node
    ensures RuleIs(ds, name, n)
  {
    hide InLower;
    var k := |ds| - 1;
    if InLower(ds[k].name) != name {
      if Defined(ds, name) == 1 {
        var i :| 0 <= i < |ds[..k]| && InLower(ds[..k][i].name) == name && n == ds[..k][i].node;
        assert InLower(ds[i].name) == name && n == ds[i].node;
      }
    } else if !ds[k].more {
      assert InLower(ds[k].name) == name;
    }
  }

  lemma {:induction false} NoAlts(ds: seq<Def>, name: string)
    requires Defined(ds, name) == 0
    ensures AllAlts(ds, name) == []
  {
    hide InLower;
    if ds != [] { NoAlts(ds[..|ds| - 1], name); }
  }

  lemma RulesMore(ds: seq<Def>, t: Table, m: string)
    requires ds != [] && InTurn(ds) && IsTable(ds[..|ds| - 1], t) && AddDef(t, ds[|ds| - 1]).Table? && m in AddDef(t, ds[|ds| - 1]).rules
    ensures var n := AddDef(t, ds[|ds| - 1]).rules[m]; RuleIs(ds, m, n) && AltsOf(n) == AllAlts(ds, m)
  {
    hide InLower, LowerText, RuleIs, InTurn, Earlier, AltsOf;
    var k := |ds| - 1;
    var d, front := ds[k], ds[..k];
    var name := InLower(d.name);
    LowerIs(d.name);
    EarlierIs(ds);
    var u := AddDef(t, d);
    if m == name {
      if d.more {
        AltsJoin(AllAlts(front, name), AltsOf(d.node));
        AltsIs(t.rules[name]);
        AltsIs(d.node);
      } else {
        NoAlts(front, name);
      }
    }
    RuleMore(ds, m, u.rules[m]);
  }

  lemma AltsIs(n: Node)
    ensures AltsOf(n) == Alternates(n)
  {
  }

  lemma TableMore(ds: seq<Def>, t: Table)
    requires ds != [] && InTurn(ds) && IsTable(ds[..|ds| - 1], t)
    requires forall i :: 0 <= i < |ds| ==> ds[i].name != ""
    ensures IsTable(ds, AddDef(t, ds[|ds| - 1]))
  {
    hide InLower, LowerText, RuleIs, InTurn, AllAlts, AltsOf;
    var k := |ds| - 1;
    var u := AddDef(t, ds[k]);
    LowerIs(ds[k].name);
    EarlierIs(ds);
    forall m | m in u.rules ensures RuleIs(ds, m, u.rules[m]) && AltsOf(u.rules[m]) == AllAlts(ds, m) { RulesMore(ds, t, m); }
    forall m ensures m in u.rules <==> 0 < Defined(ds, m) {
      assert m in t.rules <==> 0 < Defined(ds[..k], m);
    }
    StartMore(ds, t);
  }

  lemma StartMore(ds: seq<Def>, t: Table)
    requires ds != [] && InTurn(ds) && IsTable(ds[..|ds| - 1], t) && AddDef(t, ds[|ds| - 1]).Table?
    requires forall i :: 0 <= i < |ds| ==> ds[i].name != ""
    ensures AddDef(t, ds[|ds| - 1]).start == ds[0].name
  {
    hide InLower, LowerText, RuleIs;
    if |ds| == 1 {
      assert !Earlier(ds, 0);
    } else {
      assert ds[..|ds| - 1][0] == ds[0];
    }
  }

  lemma TableLess(ds: seq<Def>, t: Table)
    requires ds != [] && !InTurn(ds) && InTurn(ds[..|ds| - 1]) && IsTable(ds[..|ds| - 1], t)
    ensures AddDef(t, ds[|ds| - 1]).NoTable?
  {
    hide InLower, LowerText, RuleIs;
    LowerIs(ds[|ds| - 1].name);
    EarlierIs(ds);
  }

  /** Definitions make a table exactly where each comes in its turn, and then this one. */
  lemma {:induction false} TableIff(ds: seq<Def>)
    requires forall i :: 0 <= i < |ds| ==> ds[i].name != ""
    ensures DefTable(ds).Table? <==> InTurn(ds)
    ensures InTurn(ds) ==> IsTable(ds, DefTable(ds))
    decreases |ds|
  {
    hide IsTable, InTurn, AddDef;
    if ds == [] {
      EmptyTurn();
    } else {
      var front := ds[..|ds| - 1];
      TableIff(front);
      EarlierIs(ds);
      if InTurn(front) {
        if InTurn(ds) {
          TableMore(ds, DefTable(front));
          IsOne(ds, AddDef(DefTable(front), ds[|ds| - 1]));
        } else {
          TableLess(ds, DefTable(front));
        }
      }
    }
  }

  lemma IsOne(ds: seq<Def>, t: Table)
    requires IsTable(ds, t)
    ensures t.Table?
  {
  }

  lemma EmptyTurn()
    ensures InTurn([]) && IsTable([], Table(map[], [], ""))
  {
  }

  // ----- the source

  /** The lines are laid out as definitions in some spelling. */
  ghost predicate SourceSpelled(lines: seq<string>, ds: seq<Def>) {
    exists front, blocks :: Laid(front, blocks, lines) && DefsSpelled(BlockTexts(blocks), ds)
  }

  ghost predicate DefsSpelled(texts: seq<string>, ds: seq<Def>) {
    |texts| == |ds| && forall i :: 0 <= i < |ds| ==> DefSpelled(texts[i], ds[i])
  }

  lemma {:induction false} TableReads(texts: seq<string>, ds: seq<Def>)
    requires DefsSpelled(texts, ds)
    ensures TableOf(texts) == DefTable(ds)
    decreases |texts|
  {
    hide DefSpelled, ReadDef, AddDef;
    if texts != [] {
      var n := |texts| - 1;
      assert DefSpelled(texts[n], ds[n]);
      DefIff(texts[n], ds[n]);
      TableReads(texts[..n], ds[..n]);
    }
  }

  lemma {:induction false} ReadsOf(texts: seq<string>) returns (ds: seq<Def>)
    requires TableOf(texts).Table?
    ensures DefsSpelled(texts, ds)
    decreases |texts|
  {
    hide DefSpelled, ReadDef, AddDef;
    if texts == [] {
      ds := [];
    } else {
      var n := |texts| - 1;
      var front := ReadsOf(texts[..n]);
      DefIff(texts[n], ReadDef(texts[n]).value);
      ds := front + [ReadDef(texts[n]).value];
      forall i | 0 <= i < |ds| ensures DefSpelled(texts[i], ds[i]) { if i < n { assert DefSpelled(texts[..n][i], front[i]); } }
    }
  }

  lemma SpelledNamed(text: string, d: Def)
    requires DefSpelled(text, d)
    ensures d.name != ""
  {
  }

  /** However a grammar is laid out and spelled, it is read as the table of its definitions, and
      refused exactly where one is not in its turn. */
  lemma LayoutRead(src: string, ds: seq<Def>)
    requires SourceSpelled(Split(Newlines(src)), ds)
    ensures SourceTable(src) == DefTable(ds)
    ensures SourceTable(src).Table? <==> InTurn(ds)
    ensures InTurn(ds) ==> IsTable(ds, SourceTable(src))
  {
    hide Laid, DefSpelled, TableOf, DefTable, Defs, Split, Newlines, IsTable, InTurn;
    var lines := Split(Newlines(src));
    var front, blocks :| Laid(front, blocks, lines) && DefsSpelled(BlockTexts(blocks), ds);
    LayoutDefs(front, blocks, lines);
    TableReads(BlockTexts(blocks), ds);
    forall i | 0 <= i < |ds| ensures ds[i].name != "" { SpelledNamed(BlockTexts(blocks)[i], ds[i]); }
    TableIff(ds);
  }

  /** And whatever is read is laid out and spelled so. */
  lemma ReadLaid(src: string)
    requires SourceTable(src).Table?
    ensures exists ds :: SourceSpelled(Split(Newlines(src)), ds) && InTurn(ds)
  {
    hide Laid, DefsSpelled, TableOf, Defs, Split, Newlines, InTurn, BlockTexts;
    var lines := Split(Newlines(src));
    var front, blocks := LayoutOf(lines);
    LayoutDefs(front, blocks, lines);
    var ds := ReadsOf(BlockTexts(blocks));
    assert SourceSpelled(lines, ds);
    LayoutRead(src, ds);
  }

  // ----- line endings

  predicate LineEnd(end: string) {
    end == "\n" || end == "\r" || end == "\r\n"
  }

  /** Lines with an ending behind each but the last. */
  function EndedText(lines: seq<string>, ends: seq<string>): string
    requires |lines| == |ends| + 1
  {
    if ends == [] then lines[0] else lines[0] + ends[0] + EndedText(lines[1..], ends[1..])
  }

  ghost predicate OneLine(line: string) {
    '\n' !in line && '\r' !in line
  }

  lemma {:induction false} NewlinesLine(line: string, rest: string)
    requires OneLine(line)
    ensures Newlines(line + rest) == line + Newlines(rest)
  {
    if line == "" {
      assert line + rest == rest;
    } else {
      assert line[0] in line && forall c :: c in line[1..] ==> c in line;
      assert (line + rest)[0] == line[0] && (line + rest)[1..] == line[1..] + rest;
      NewlinesLine(line[1..], rest);
      assert [line[0]] + (line[1..] + Newlines(rest)) == line + Newlines(rest);
    }
  }

  lemma NewlinesEnd(end: string, rest: string)
    requires LineEnd(end) && (end == "\r" ==> rest == "" || rest[0] != '\n')
    ensures Newlines(end + rest) == "\n" + Newlines(rest)
  {
    var s := end + rest;
    if end == "\r\n" { assert s[0] == '\r' && s[1] == '\n' && s[2..] == rest; } else { assert s[1..] == rest; }
  }

  /** A return alone is an ending of its own: no newline stands next to it. */
  ghost predicate EndsApart(lines: seq<string>, ends: seq<string>)
    requires |lines| == |ends| + 1
  {
    forall i :: 0 <= i < |ends| && ends[i] == "\r" ==> var rest := EndedText(lines[i + 1..], ends[i + 1..]); rest == "" || rest[0] != '\n'
  }

  lemma EndsLess(lines: seq<string>, ends: seq<string>)
    requires |lines| == |ends| + 1 && EndsApart(lines, ends) && ends != []
    ensures EndsApart(lines[1..], ends[1..])
  {
    hide EndedText;
    var ls, es := lines[1..], ends[1..];
    forall i | 0 <= i < |es| && es[i] == "\r" ensures var rest := EndedText(ls[i + 1..], es[i + 1..]); rest == "" || rest[0] != '\n' {
      assert ls[i + 1..] == lines[i + 2..] && es[i + 1..] == ends[i + 2..] && ends[i + 1] == "\r";
    }
  }

  /** Whichever endings a source has, its lines are its lines. */
  lemma {:induction false} EndingsRead(lines: seq<string>, ends: seq<string>)
    requires |lines| == |ends| + 1 && (forall i :: 0 <= i < |ends| ==> LineEnd(ends[i])) && EndsApart(lines, ends)
    requires forall i :: 0 <= i < |lines| ==> OneLine(lines[i])
    ensures Split(Newlines(EndedText(lines, ends))) == lines
    decreases |ends|
  {
    hide Split, Newlines, OneLine;
    if ends == [] {
      assert lines[0] + "" == lines[0];
      NewlinesLine(lines[0], "");
      LastLine(lines[0]);
      assert lines == [lines[0]];
    } else {
      var rest := EndedText(lines[1..], ends[1..]);
      EndsLess(lines, ends);
      EndingsRead(lines[1..], ends[1..]);
      assert lines[0] + ends[0] + rest == lines[0] + (ends[0] + rest);
      NewlinesLine(lines[0], ends[0] + rest);
      NewlinesEnd(ends[0], rest);
      assert lines[0] + ("\n" + Newlines(rest)) == lines[0] + "\n" + Newlines(rest);
      NoEnd(lines[0]);
      SplitLine(lines[0], Newlines(rest));
    }
  }

  lemma NoEnd(line: string)
    requires OneLine(line)
    ensures '\n' !in line
  {
  }

  lemma {:induction false} LastLine(line: string)
    requires OneLine(line)
    ensures Newlines("") == "" && Split(line + Newlines("")) == [line]
  {
    assert line + "" == line;
    if line != "" {
      assert line[0] in line && forall c :: c in line[1..] ==> c in line;
      LastLine(line[1..]);
      assert line[1..] + "" == line[1..];
      SplitCons(line[0], line[1..]);
      assert [line[0]] + line[1..] == line;
    }
  }
}
