/**
 The text of a unified diff (UnifiedDiff and fmtRange, go/format.go:1920-1990), and the text
 read back: by itself it is a patch from the lines before to the lines after.
 */
module DiffText {
  import opened Options
  import opened Chain
  import opened Numerals
  import opened Patience
  import opened UnifiedDiff
  import opened Hunks

  /** Where a hunk stands on one side (fmtRange), lines counted from 1; one with no line there stands behind `at` lines. */
  function RangeText(at: nat, n: nat): string {
    if n == 0 then DigitsOf(at) + ",0" else DigitsOf(at + 1) + "," + DigitsOf(n)
  }

  function OpText(e: Edit): string {
    match e case Keep(_) => " " case Remove(_) => "-" case Add(_) => "+"
  }

  const NO_NEWLINE_LINE := "\\ No newline at end of file"

  function BodyLines(es: seq<Edit>): Lines {
    if es == [] then []
    else
      var e := es[|es| - 1];
      BodyLines(es[..|es| - 1]) +
      if Marked(e.text) then [OpText(e) + e.text[..|e.text| - 1], NO_NEWLINE_LINE] else [OpText(e) + e.text]
  }

  function HunkHead(h: Hunk): string {
    "@@ -" + RangeText(h.aAt, h.aLen) + " +" + RangeText(h.bAt, h.bLen) + " @@"
  }

  function FileHead(name: string): Lines {
    ["--- a/" + name, "+++ b/" + name]
  }

  function HunkLines(h: Hunk): Lines {
    [HunkHead(h)] + BodyLines(h.body)
  }

  function AllHunkLines(hunks: seq<Hunk>): Lines {
    if hunks == [] then [] else AllHunkLines(hunks[..|hunks| - 1]) + HunkLines(hunks[|hunks| - 1])
  }

  function Rendered(name: string, hunks: seq<Hunk>): string {
    Join(FileHead(name) + AllHunkLines(hunks)) + "\n"
  }

  method BodyText(es: seq<Edit>) returns (lines: Lines)
    ensures lines == BodyLines(es)
  {
    lines := [];
    for k := 0 to |es|
      invariant lines == BodyLines(es[..k])
    {
      var e := es[k];
      assert es[..k + 1][..k] == es[..k] && es[..k + 1][k] == e;
      if Marked(e.text) {
        lines := lines + [OpText(e) + e.text[..|e.text| - 1]];
        lines := lines + [NO_NEWLINE_LINE];
      } else {
        lines := lines + [OpText(e) + e.text];
      }
    }
    assert es[..|es|] == es;
  }

  // ----- reading a diff

  /** How many digits a text begins with. */
  function Leading(s: string): (k: nat)
    ensures k <= |s| && IsDigits(s[..k])
  {
    if s == "" || !('0' <= s[0] <= '9') then 0 else 1 + Leading(s[1..])
  }

  datatype Number = Number(n: nat, rest: string)

  function TakeNumber(s: string): Option<Number> {
    if Leading(s) == 0 then None else Some(Number(ReadDigits(s[..Leading(s)]), s[Leading(s)..]))
  }

  function After(s: string, lead: string): Option<string> {
    if lead <= s then Some(s[|lead|..]) else None
  }

  datatype Range = Range(at: nat, n: nat, rest: string)

  /** A hunk's range: the line it starts at, counted from 0, and how many there are. */
  function TakeRange(s: string): Option<Range> {
    var first := TakeNumber(s);
    if first.None? then None
    else
      var behind := After(first.value.rest, ",");
      if behind.None? then None
      else
        var count := TakeNumber(behind.value);
        if count.None? || (0 < count.value.n && first.value.n == 0) then None
        else Some(Range(if count.value.n == 0 then first.value.n else first.value.n - 1, count.value.n, count.value.rest))
  }

  /** A hunk's head: it with no edits yet. */
  function ReadHead(line: string): Option<Hunk> {
    var start := After(line, "@@ -");
    if start.None? then None
    else
      var a := TakeRange(start.value);
      if a.None? then None
      else
        var middle := After(a.value.rest, " +");
        if middle.None? then None
        else
          var b := TakeRange(middle.value);
          if b.None? || b.value.rest != " @@" then None
          else Some(Hunk(a.value.at, a.value.n, b.value.at, b.value.n, []))
  }

  datatype Body = Body(edits: seq<Edit>, rest: Lines)

  /** Edits until as many lines are read on each side, each line marked where the next line says
      no newline ends it. */
  function ReadEdits(ls: Lines, alen: nat, blen: nat): (out: Option<Body>)
    ensures out.Some? ==> |out.value.rest| <= |ls|
    decreases |ls|
  {
    if alen == 0 && blen == 0 then Some(Body([], ls))
    else if ls == [] || ls[0] == "" then None
    else
      var marked := 1 < |ls| && ls[1] == NO_NEWLINE_LINE;
      var text, rest := ls[0][1..] + (if marked then [NO_NEWLINE] else ""), ls[if marked then 2 else 1..];
      if ls[0][0] == ' ' && 0 < alen && 0 < blen then Behind(Keep(text), ReadEdits(rest, alen - 1, blen - 1))
      else if ls[0][0] == '-' && 0 < alen then Behind(Remove(text), ReadEdits(rest, alen - 1, blen))
      else if ls[0][0] == '+' && 0 < blen then Behind(Add(text), ReadEdits(rest, alen, blen - 1))
      else None
  }

  function Behind(e: Edit, body: Option<Body>): Option<Body> {
    if body.None? then None else Some(Body([e] + body.value.edits, body.value.rest))
  }

  function ReadHunks(ls: Lines): Option<seq<Hunk>>
    decreases |ls|
  {
    if ls == [] then Some([])
    else
      var h := ReadHead(ls[0]);
      if h.None? then None
      else
        var body := ReadEdits(ls[1..], h.value.aLen, h.value.bLen);
        if body.None? then None
        else
          var more := ReadHunks(body.value.rest);
          if more.None? then None else Some([h.value.(body := body.value.edits)] + more.value)
  }

  /** A diff's text as its hunks. */
  function ReadDiff(text: string): Option<seq<Hunk>> {
    var ls := Split(text);
    if |ls| < 3 || ls[|ls| - 1] != "" || !("--- a/" <= ls[0]) || !("+++ b/" <= ls[1]) then None
    else ReadHunks(ls[2..|ls| - 1])
  }

  /** Applying a diff's text to the lines before; the empty text changes nothing. */
  ghost function Applied(before: Lines, text: string): Patched {
    if text == "" then Gives(before)
    else
      var hunks := ReadDiff(text);
      if hunks.None? then Fails else Patch(before, 0, 0, hunks.value)
  }

  // ----- what is written is what is read

  predicate DigitFirst(s: string) {
    s != "" && '0' <= s[0] <= '9'
  }

  lemma {:induction false} LeadingIs(d: string, rest: string)
    requires IsDigits(d) && !DigitFirst(rest)
    ensures Leading(d + rest) == |d|
  {
    if d == "" {
      assert d + rest == rest;
    } else {
      assert (d + rest)[0] == d[0] && (d + rest)[1..] == d[1..] + rest;
      LeadingIs(d[1..], rest);
    }
  }

  lemma NumberTaken(n: nat, rest: string)
    requires !DigitFirst(rest)
    ensures TakeNumber(DigitsOf(n) + rest) == Some(Number(n, rest))
  {
    hide DigitsOf, ReadDigits;
    var d := DigitsOf(n);
    LeadingIs(d, rest);
    assert (d + rest)[..|d|] == d && (d + rest)[|d|..] == rest;
    ReadOf(n);
  }

  lemma AfterLead(lead: string, rest: string)
    ensures After(lead + rest, lead) == Some(rest)
  {
  }

  lemma RangeTaken(at: nat, n: nat, rest: string)
    requires !DigitFirst(rest)
    ensures TakeRange(RangeText(at, n) + rest) == Some(Range(at, n, rest))
  {
    hide DigitsOf, TakeNumber, After;
    var first := if n == 0 then at else at + 1;
    NumberTaken(n, rest);
    AfterLead(",", DigitsOf(n) + rest);
    NumberTaken(first, "," + (DigitsOf(n) + rest));
    ZeroDigits();
    assert RangeText(at, n) + rest == DigitsOf(first) + ("," + (DigitsOf(n) + rest));
  }

  lemma ZeroDigits()
    ensures DigitsOf(0) == "0"
  {
  }

  /** A hunk's head reads back: both starts and both counts. */
  lemma HeadRead(h: Hunk)
    ensures ReadHead(HunkHead(h)) == Some(h.(body := []))
  {
    hide RangeText, TakeRange, After;
    var b := RangeText(h.bAt, h.bLen);
    RangeTaken(h.bAt, h.bLen, " @@");
    AfterLead(" +", b + " @@");
    RangeTaken(h.aAt, h.aLen, " +" + (b + " @@"));
    AfterLead("@@ -", RangeText(h.aAt, h.aLen) + (" +" + (b + " @@")));
    assert HunkHead(h) == "@@ -" + (RangeText(h.aAt, h.aLen) + (" +" + (b + " @@")));
  }

  /** One edit's lines. */
  function EditLines(e: Edit): Lines {
    if Marked(e.text) then [OpText(e) + e.text[..|e.text| - 1], NO_NEWLINE_LINE] else [OpText(e) + e.text]
  }

  lemma {:induction false} BodyCons(e: Edit, es: seq<Edit>)
    ensures BodyLines([e] + es) == EditLines(e) + BodyLines(es)
  {
    hide EditLines, OpText, Marked;
    var all := [e] + es;
    BodyLast(all);
    if es == [] {
      assert all[..0] == [] && all[0] == e;
      NoBody();
      assert EditLines(e) + [] == [] + EditLines(e);
    } else {
      BodyLast(es);
      BodyCons(e, es[..|es| - 1]);
      assert all[..|all| - 1] == [e] + es[..|es| - 1];
      LinesAssoc(EditLines(e), BodyLines(es[..|es| - 1]), EditLines(es[|es| - 1]));
    }
  }

  lemma LinesAssoc(a: Lines, b: Lines, c: Lines)
    ensures (a + b) + c == a + (b + c)
  {
  }

  lemma BodyLast(es: seq<Edit>)
    requires es != []
    ensures BodyLines(es) == BodyLines(es[..|es| - 1]) + EditLines(es[|es| - 1])
  {
  }

  lemma NoBody()
    ensures BodyLines([]) == []
  {
  }

  predicate NoteFirst(ls: Lines) {
    ls != [] && ls[0] == NO_NEWLINE_LINE
  }

  /** No edit's first line is the note. */
  lemma EditNotNote(e: Edit)
    ensures !NoteFirst(EditLines(e)) && EditLines(e) != [] && EditLines(e)[0] != "" && EditLines(e)[0][0] == OpText(e)[0]
  {
    assert NO_NEWLINE_LINE[0] == '\\';
  }

  /** One edit is read off the front of the lines. */
  lemma EditRead(e: Edit, rest: Lines, alen: nat, blen: nat)
    requires !NoteFirst(rest) && (!e.Add? ==> 0 < alen) && (!e.Remove? ==> 0 < blen)
    ensures ReadEdits(EditLines(e) + rest, alen, blen)
         == Behind(e, ReadEdits(rest, if e.Add? then alen else alen - 1, if e.Remove? then blen else blen - 1))
  {
    hide Behind;
    var ls := EditLines(e) + rest;
    EditNotNote(e);
    EditText(e);
    if Marked(e.text) {
      assert ls[1] == NO_NEWLINE_LINE && ls[2..] == rest;
    } else {
      assert ls[1..] == rest && (1 < |ls| ==> ls[1] == rest[0]);
    }
  }

  lemma EditText(e: Edit)
    ensures EditLines(e)[0] != "" && EditLines(e)[0][1..] + (if Marked(e.text) then [NO_NEWLINE] else "") == e.text
  {
    var line := EditLines(e)[0];
    if Marked(e.text) {
      assert line[1..] == e.text[..|e.text| - 1];
    } else {
      assert line[1..] == e.text && e.text + "" == e.text;
    }
  }

  /** A hunk's body reads back by its counts alone. */
  lemma {:induction false} BodyRead(es: seq<Edit>, rest: Lines)
    requires !NoteFirst(rest)
    ensures ReadEdits(BodyLines(es) + rest, |OldOf(es)|, |NewOf(es)|) == Some(Body(es, rest))
  {
    hide BodyLines, EditLines, ReadEdits, NoteFirst;
    if es == [] {
      NoBody();
      NoneRead(rest);
      assert [] + rest == rest;
    } else {
      var e, more := es[0], es[1..];
      assert es == [e] + more;
      BodyCons(e, more);
      BodyRead(more, rest);
      LinesAssoc(EditLines(e), BodyLines(more), rest);
      NotNote(more, rest);
      EditRead(e, BodyLines(more) + rest, |OldOf(es)|, |NewOf(es)|);
    }
  }

  lemma NoneRead(rest: Lines)
    ensures ReadEdits(rest, 0, 0) == Some(Body([], rest))
  {
  }

  lemma NotNote(es: seq<Edit>, rest: Lines)
    requires !NoteFirst(rest)
    ensures !NoteFirst(BodyLines(es) + rest)
  {
    hide BodyLines, EditLines;
    if es == [] {
      NoBody();
      assert [] + rest == rest;
    } else {
      assert es == [es[0]] + es[1..];
      BodyCons(es[0], es[1..]);
      EditNotNote(es[0]);
      assert (BodyLines(es) + rest)[0] == EditLines(es[0])[0];
    }
  }

  lemma {:induction false} HunksCons(h: Hunk, hunks: seq<Hunk>)
    ensures AllHunkLines([h] + hunks) == HunkLines(h) + AllHunkLines(hunks)
  {
    hide HunkLines;
    var all := [h] + hunks;
    if hunks == [] {
      assert all[..0] == [] && all[0] == h;
      assert [] + HunkLines(h) == HunkLines(h) + [];
    } else {
      HunksCons(h, hunks[..|hunks| - 1]);
      assert all[..|all| - 1] == [h] + hunks[..|hunks| - 1];
      LinesAssoc(HunkLines(h), AllHunkLines(hunks[..|hunks| - 1]), HunkLines(hunks[|hunks| - 1]));
    }
  }

  /** Hunks whose counts are those of their edits. */
  ghost predicate Counted(hunks: seq<Hunk>) {
    forall i :: 0 <= i < |hunks| ==> hunks[i].aLen == |OldOf(hunks[i].body)| && hunks[i].bLen == |NewOf(hunks[i].body)|
  }

  lemma HeadNotNote(hunks: seq<Hunk>)
    ensures !NoteFirst(AllHunkLines(hunks))
  {
    hide BodyLines, RangeText;
    if hunks != [] {
      assert hunks == [hunks[0]] + hunks[1..];
      HunksCons(hunks[0], hunks[1..]);
      assert HunkHead(hunks[0])[0] == '@' && NO_NEWLINE_LINE[0] == '\\';
    } else {
      NoHunkLines();
    }
  }

  lemma NoHunkLines()
    ensures AllHunkLines([]) == []
  {
  }

  lemma ReadStep(ls: Lines)
    requires ls != [] && ReadHead(ls[0]).Some?
    requires ReadEdits(ls[1..], ReadHead(ls[0]).value.aLen, ReadHead(ls[0]).value.bLen).Some?
    ensures var h := ReadHead(ls[0]).value;
            var body := ReadEdits(ls[1..], h.aLen, h.bLen).value;
            ReadHunks(ls) == if ReadHunks(body.rest).None? then None
                             else Some([h.(body := body.edits)] + ReadHunks(body.rest).value)
  {
  }

  lemma {:induction false} HunksRead(hunks: seq<Hunk>)
    requires Counted(hunks)
    ensures ReadHunks(AllHunkLines(hunks)) == Some(hunks)
  {
    hide AllHunkLines, BodyLines, ReadHead, ReadEdits, HunkHead, ReadHunks;
    if hunks == [] {
      NoHunkLines();
      NoneToRead();
    } else {
      var h, more := hunks[0], hunks[1..];
      assert hunks == [h] + more;
      HunksCons(h, more);
      HunksRead(more);
      HeadRead(h);
      HeadNotNote(more);
      BodyRead(h.body, AllHunkLines(more));
      var ls := AllHunkLines(hunks);
      assert ls[0] == HunkHead(h) && ls[1..] == BodyLines(h.body) + AllHunkLines(more);
      ReadStep(ls);
      assert h.(body := []).(body := h.body) == h;
    }
  }

  lemma NoneToRead()
    ensures ReadHunks([]) == Some([])
  {
  }

  // ----- the lines of the text

  lemma CleanAppend(a: Lines, b: Lines)
    ensures Clean(a + b) <==> Clean(a) && Clean(b)
  {
    assert forall i :: 0 <= i < |a| ==> (a + b)[i] == a[i];
    assert forall i :: 0 <= i < |b| ==> (a + b)[|a| + i] == b[i];
  }

  ghost predicate CleanEdits(es: seq<Edit>) {
    forall i :: 0 <= i < |es| ==> '\n' !in es[i].text
  }

  ghost predicate CleanHunks(hunks: seq<Hunk>) {
    forall i :: 0 <= i < |hunks| ==> CleanEdits(hunks[i].body)
  }

  lemma NoNewlines(a: string, b: string)
    requires '\n' !in a && '\n' !in b
    ensures '\n' !in a + b
  {
  }

  lemma EditClean(e: Edit)
    requires '\n' !in e.text
    ensures Clean(EditLines(e))
  {
    if Marked(e.text) { NoNewlines(OpText(e), e.text[..|e.text| - 1]); } else { NoNewlines(OpText(e), e.text); }
  }

  lemma {:induction false} BodyClean(es: seq<Edit>)
    requires CleanEdits(es)
    ensures Clean(BodyLines(es))
  {
    hide BodyLines, EditLines, Clean;
    if es == [] {
      NoBody();
      NoLines();
    } else {
      BodyLast(es);
      BodyClean(es[..|es| - 1]);
      EditClean(es[|es| - 1]);
      CleanAppend(BodyLines(es[..|es| - 1]), EditLines(es[|es| - 1]));
    }
  }

  lemma NoLines()
    ensures Clean([])
  {
  }

  lemma DigitsClean(n: nat)
    ensures '\n' !in DigitsOf(n)
  {
  }

  lemma HeadClean(h: Hunk)
    ensures '\n' !in HunkHead(h)
  {
    hide DigitsOf;
    DigitsClean(h.aAt);
    DigitsClean(h.aAt + 1);
    DigitsClean(h.aLen);
    DigitsClean(h.bAt);
    DigitsClean(h.bAt + 1);
    DigitsClean(h.bLen);
  }

  lemma {:induction false} HunksClean(hunks: seq<Hunk>)
    requires CleanHunks(hunks)
    ensures Clean(AllHunkLines(hunks))
  {
    hide BodyLines, HunkHead, Clean;
    if hunks == [] {
      NoLines();
    } else {
      var n := |hunks| - 1;
      HunksClean(hunks[..n]);
      BodyClean(hunks[n].body);
      HeadClean(hunks[n]);
      OneClean(HunkHead(hunks[n]));
      CleanAppend([HunkHead(hunks[n])], BodyLines(hunks[n].body));
      CleanAppend(AllHunkLines(hunks[..n]), HunkLines(hunks[n]));
    }
  }

  lemma OneClean(line: string)
    requires '\n' !in line
    ensures Clean([line])
  {
  }

  lemma FileClean(name: string)
    requires '\n' !in name
    ensures Clean(FileHead(name))
  {
    NoNewlines("--- a/", name);
    NoNewlines("+++ b/", name);
  }

  /** A rendered diff reads back as its hunks. */
  lemma RenderedRead(name: string, hunks: seq<Hunk>)
    requires '\n' !in name && CleanHunks(hunks) && Counted(hunks)
    ensures ReadDiff(Rendered(name, hunks)) == Some(hunks)
  {
    hide Split, Join, AllHunkLines, ReadHunks, Clean;
    var head, body := FileHead(name), AllHunkLines(hunks);
    FileClean(name);
    HunksClean(hunks);
    CleanAppend(head, body);
    SplitJoined(head + body);
    var ls := head + body + [""];
    assert ls[2..|ls| - 1] == body;
    assert ls[0] == "--- a/" + name && ls[1] == "+++ b/" + name;
    HunksRead(hunks);
  }

  // ----- the whole

  lemma {:induction false} OldTexts(es: seq<Edit>, i: nat)
    requires i < |es|
    ensures es[i].text in OldOf(es) || es[i].text in NewOf(es)
  {
    if 0 < i {
      OldTexts(es[1..], i - 1);
      assert es[1..][i - 1] == es[i];
    }
  }

  lemma LinesClean(text: string)
    ensures Clean(TextLines(text))
  {
    if text != "" {
      var ls := Split(text);
      forall i | 0 <= i < |ls| ensures '\n' !in ls[i] { NoNewlineIn(text, i); }
    }
  }

  lemma ScriptClean(es: seq<Edit>, before: string, after: string)
    requires OldOf(es) == TextLines(before) && NewOf(es) == TextLines(after)
    ensures CleanEdits(es)
  {
    hide OldOf, NewOf, TextLines;
    LinesClean(before);
    LinesClean(after);
    forall i | 0 <= i < |es| ensures '\n' !in es[i].text { OldTexts(es, i); }
  }

  lemma ExactClean(es: seq<Edit>, hunks: seq<Hunk>, cuts: seq<Cut>)
    requires CleanEdits(es) && |cuts| == |hunks| && forall i :: 0 <= i < |hunks| ==> Exact(es, hunks[i], cuts[i])
    ensures CleanHunks(hunks) && Counted(hunks)
  {
    forall i | 0 <= i < |hunks| ensures CleanEdits(hunks[i].body) { assert Exact(es, hunks[i], cuts[i]); }
  }

  /** The script keeps as many lines as ever stand once in both texts, in one order in both. */
  ghost predicate KeepsChains(a: Lines, b: Lines, es: seq<Edit>) {
    forall c :: AnchorChain(a, 0, |a|, b, 0, |b|, c) ==> |c| <= KeepCount(es)
  }

  lemma PinsWhole(a: Lines, b: Lines, es: seq<Edit>)
    requires PinsChains(a, 0, |a|, b, 0, |b|, [], es) && SpentTo([], es)
    ensures KeepsChains(a, b, es) && Spent(es)
  {
    hide AnchorChain, Spent;
    assert es[0..] == es;
    forall c | AnchorChain(a, 0, |a|, b, 0, |b|, c) ensures |c| <= KeepCount(es) { assert Pins([], es, |c|); }
  }

  /** The hunks of a diff: the script, its spans and their cuts. */
  method Structure(before: string, after: string) returns (hunks: seq<Hunk>, cuts: seq<Cut>, edits: seq<Edit>)
    ensures OldOf(edits) == TextLines(before) && NewOf(edits) == TextLines(after)
    ensures KeepsChains(TextLines(before), TextLines(after), edits) && Spent(edits)
    ensures hunks == [] <==> TextLines(before) == TextLines(after)
    ensures |cuts| == |hunks| && WellCut(edits, cuts) && forall i :: 0 <= i < |hunks| ==> Exact(edits, hunks[i], cuts[i])
    ensures Patch(TextLines(before), 0, 0, hunks) == Gives(TextLines(after))
  {
    hide HunksTo, Exact, WellCut, Patch, Script, Quiet, TextLines, AllKept, KeptIn, Grouped, PinsChains, SpentTo, KeepsChains, Spent;
    var a := TextLines(before);
    var b := TextLines(after);
    edits := PatienceDiff(a, 0, |a|, b, 0, |b|, []);
    ScriptWhole(a, b, edits);
    PinsWhole(a, b, edits);
    var spans := Group(edits);
    hunks, cuts := HunksOf(edits, spans);
    CutsWell(edits, spans, cuts);
    HunksExact(edits, hunks, cuts, EndOf(cuts));
    PatchWhole(edits, hunks, cuts);
  }

  /** UnifiedDiff, with the hunks its text is written from: they are a patch from the lines of
      before to the lines of after, ordered, disjoint, covering every change, out of a script that
      keeps as many lines as any chain of lines unique in both texts has and leaves no block with
      more to keep; the text by itself is that patch, and is empty exactly when the texts are the
      same but for a mark and a newline one ends in. */
  method Diff(name: string, before: string, after: string)
    returns (text: string, hunks: seq<Hunk>, cuts: seq<Cut>, edits: seq<Edit>)
    ensures OldOf(edits) == TextLines(before) && NewOf(edits) == TextLines(after)
    ensures KeepsChains(TextLines(before), TextLines(after), edits) && Spent(edits)
    ensures text == if hunks == [] then "" else Rendered(name, hunks)
    ensures text == "" <==> TextLines(before) == TextLines(after)
    ensures text == "" <==> before == after || Twin(before, after) || Twin(after, before)
    ensures |cuts| == |hunks| && WellCut(edits, cuts) && forall i :: 0 <= i < |hunks| ==> Exact(edits, hunks[i], cuts[i])
    ensures Patch(TextLines(before), 0, 0, hunks) == Gives(TextLines(after))
    ensures '\n' !in name ==> Applied(TextLines(before), text) == Gives(TextLines(after))
  {
    hide Exact, WellCut, Patch, TextLines, Join, OldOf, NewOf, HunkLines, ReadDiff, KeepsChains, Spent;
    SameLinesSameText(before, after);
    hunks, cuts, edits := Structure(before, after);
    if |hunks| == 0 { return "", hunks, cuts, edits; }
    var out := WholeLines(name, hunks);
    text := Join(out) + "\n";
    ScriptClean(edits, before, after);
    ExactClean(edits, hunks, cuts);
    if '\n' !in name { RenderedRead(name, hunks); }
  }

  method WholeLines(name: string, hunks: seq<Hunk>) returns (out: Lines)
    ensures out == FileHead(name) + AllHunkLines(hunks)
  {
    hide HunkHead, FileHead, BodyLines;
    out := FileHead(name);
    for i := 0 to |hunks|
      invariant out == FileHead(name) + AllHunkLines(hunks[..i])
    {
      var h := hunks[i];
      var body := BodyText(h.body);
      ghost var was := out;
      out := out + [HunkHead(h)];
      out := out + body;
      assert out == was + HunkLines(h);
      assert hunks[..i + 1][..i] == hunks[..i] && hunks[..i + 1][i] == h;
    }
    assert hunks[..|hunks|] == hunks;
  }
}
