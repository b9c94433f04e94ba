/**
 Hunks of a unified diff (UnifiedDiff, fmtTextLines and fmtRange, go/format.go:1811-1822 and
 go/format.go:1920-1990): changes near one another stand in one hunk, and the hunks
 applied to the lines before give the lines after.
 */
module UnifiedDiff {
  import opened Chain
  import opened Patience

  // ----- the lines of a text

  const NO_NEWLINE: char := '\0'

  /** The pieces of a text between its newlines (strings.Split). */
  function Split(text: string): (ls: Lines)
    ensures ls != []
  {
    if text == "" then [""]
    else if text[0] == '\n' then [""] + Split(text[1..])
    else
      var rest := Split(text[1..]);
      [[text[0]] + rest[0]] + rest[1..]
  }

  /** The pieces put together again (strings.Join). */
  function Join(ls: Lines): string {
    if ls == [] then "" else if |ls| == 1 then ls[0] else ls[0] + "\n" + Join(ls[1..])
  }

  lemma SplitCons(c: char, text: string)
    ensures var rest := Split(text);
            Split([c] + text) == if c == '\n' then [""] + rest else [[c] + rest[0]] + rest[1..]
  {
    assert ([c] + text)[1..] == text;
  }

  lemma JoinCons(c: char, ls: Lines)
    requires ls != []
    ensures Join(if c == '\n' then [""] + ls else [[c] + ls[0]] + ls[1..]) == [c] + Join(ls)
  {
    if c == '\n' {
      assert ([""] + ls)[1..] == ls;
    } else {
      assert ([[c] + ls[0]] + ls[1..])[1..] == ls[1..];
      if 1 < |ls| {
        assert ([c] + ls[0]) + "\n" + Join(ls[1..]) == [c] + (ls[0] + "\n" + Join(ls[1..]));
      }
    }
  }

  lemma {:induction false} JoinSplit(text: string)
    ensures Join(Split(text)) == text
  {
    hide Join, Split;
    if text == "" {
      JoinNothing();
    } else {
      JoinSplit(text[1..]);
      SplitCons(text[0], text[1..]);
      JoinCons(text[0], Split(text[1..]));
      assert text == [text[0]] + text[1..];
    }
  }

  lemma JoinNothing()
    ensures Join(Split("")) == ""
  {
  }

  ghost predicate Clean(ls: Lines) {
    forall i :: 0 <= i < |ls| ==> '\n' !in ls[i]
  }

  lemma {:induction false} SplitLine(line: string, rest: string)
    requires '\n' !in line
    ensures Split(line + "\n" + rest) == [line] + Split(rest)
  {
    if line == "" {
      SplitCons('\n', rest);
      assert line + "\n" + rest == ['\n'] + rest;
    } else {
      assert '\n' !in line[1..] by { assert forall c :: c in line[1..] ==> c in line; }
      SplitLine(line[1..], rest);
      SplitCons(line[0], line[1..] + "\n" + rest);
      assert line + "\n" + rest == [line[0]] + (line[1..] + "\n" + rest);
      assert line[0] in line && [line[0]] + line[1..] == line;
      assert ([line[1..]] + Split(rest))[1..] == Split(rest);
    }
  }

  /** Lines joined and ended are the lines split again, and the nothing behind the last newline. */
  lemma {:induction false} SplitJoined(ls: Lines)
    requires ls != [] && Clean(ls)
    ensures Split(Join(ls) + "\n") == ls + [""]
  {
    hide Split;
    if |ls| == 1 {
      SplitLine(ls[0], "");
      assert Join(ls) + "\n" == ls[0] + "\n" + "";
      NothingSplit();
      assert ls == [ls[0]];
    } else {
      assert forall i :: 0 <= i < |ls[1..]| ==> ls[1..][i] == ls[i + 1];
      SplitJoined(ls[1..]);
      SplitLine(ls[0], Join(ls[1..]) + "\n");
      assert Join(ls) + "\n" == ls[0] + "\n" + (Join(ls[1..]) + "\n");
      assert [ls[0]] + (ls[1..] + [""]) == ls + [""];
    }
  }

  lemma NothingSplit()
    ensures Split("") == [""]
  {
  }

  /** A text's lines, the last marked where no newline ends it (fmtTextLines). */
  function TextLines(text: string): Lines {
    if text == "" then []
    else
      var ls := Split(text);
      var last := ls[|ls| - 1];
      if last == "" then ls[..|ls| - 1] else ls[..|ls| - 1] + [last + [NO_NEWLINE]]
  }

  predicate Marked(line: string) {
    line != "" && line[|line| - 1] == NO_NEWLINE
  }

  /** The text lines stand for. */
  function TextOf(ls: Lines): string {
    if ls == [] then ""
    else
      var last := ls[|ls| - 1];
      if Marked(last) then Join(ls[..|ls| - 1] + [last[..|last| - 1]]) else Join(ls + [""])
  }

  predicate EndsWith(text: string, tail: string) {
    |tail| <= |text| && text[|text| - |tail|..] == tail
  }

  lemma {:induction false} JoinLast(ls: Lines, last: string)
    requires ls != []
    ensures Join(ls + [last]) == Join(ls) + "\n" + last
  {
    if |ls| == 1 {
      assert (ls + [last])[1..] == [last];
    } else {
      JoinLast(ls[1..], last);
      assert (ls + [last])[1..] == ls[1..] + [last];
      assert Join(ls) == ls[0] + "\n" + Join(ls[1..]);
      assert Join(ls + [last]) == ls[0] + "\n" + (Join(ls[1..]) + "\n" + last);
    }
  }

  lemma {:induction false} JoinEnd(ls: Lines)
    requires ls != []
    ensures EndsWith(Join(ls), ls[|ls| - 1])
  {
    if 1 < |ls| { JoinEnd(ls[1..]); }
  }

  lemma LineJoin(ls: Lines)
    requires 1 < |ls| && ls[|ls| - 1] == ""
    ensures Join(ls) == Join(ls[..|ls| - 1]) + "\n"
  {
    assert ls == ls[..|ls| - 1] + [""];
    JoinLast(ls[..|ls| - 1], "");
  }

  /** Reading a text's lines back gives the text, unless it ends in the mark and a newline. */
  lemma TextOfLines(text: string)
    ensures TextOf(TextLines(text)) == text <==> !EndsWith(text, [NO_NEWLINE, '\n'])
  {
    hide TextOf, TextLines, EndsWith, Split;
    var ls := Split(text);
    if text == "" {
      NoText();
    } else if ls[|ls| - 1] != "" {
      OpenText(text);
    } else {
      ClosedText(text);
    }
  }

  lemma NoText()
    ensures TextOf(TextLines("")) == "" && !EndsWith("", [NO_NEWLINE, '\n'])
  {
  }

  lemma OpenText(text: string)
    requires text != "" && Split(text)[|Split(text)| - 1] != ""
    ensures TextOf(TextLines(text)) == text && !EndsWith(text, [NO_NEWLINE, '\n'])
  {
    hide Join, Split;
    JoinSplit(text);
    var ls := Split(text);
    var last := ls[|ls| - 1];
    var out := TextLines(text);
    assert out[|out| - 1] == last + [NO_NEWLINE];
    assert out[..|out| - 1] + [last] == ls;
    JoinEnd(ls);
    NoNewlineIn(text, |ls| - 1);
    assert text[|text| - 1] == last[|last| - 1];
    assert last[|last| - 1] in last;
  }

  lemma ClosedText(text: string)
    requires text != "" && Split(text)[|Split(text)| - 1] == ""
    ensures TextOf(TextLines(text)) == text <==> !EndsWith(text, [NO_NEWLINE, '\n'])
  {
    hide Join, Split, TextOf, EndsWith;
    JoinSplit(text);
    SplitOne(text);
    var ls := Split(text);
    LineJoin(ls);
    LastMarked(text, ls[..|ls| - 1]);
  }

  /** What a text is of its lines put together: with its last newline, or short of the mark. */
  lemma LinesJoined(text: string)
    requires text != ""
    ensures TextLines(text) != [] && Clean(TextLines(text))
    ensures if text[|text| - 1] == '\n' then text == Join(TextLines(text)) + "\n" else Join(TextLines(text)) == text + [NO_NEWLINE]
  {
    hide Join, Split;
    JoinSplit(text);
    var ls := Split(text);
    var front, last := ls[..|ls| - 1], ls[|ls| - 1];
    forall i | 0 <= i < |ls| ensures '\n' !in ls[i] { NoNewlineIn(text, i); }
    assert ls == front + [last];
    if last == "" {
      SplitOne(text);
      LineJoin(ls);
    } else {
      JoinEnd(ls);
      assert text[|text| - 1] == last[|last| - 1] && last[|last| - 1] in last;
      LongerJoin(front, last, [NO_NEWLINE]);
    }
  }

  lemma LongerJoin(front: Lines, last: string, tail: string)
    ensures Join(front + [last + tail]) == Join(front + [last]) + tail
  {
    if front == [] {
      assert front + [last] == [last] && front + [last + tail] == [last + tail];
    } else {
      JoinLast(front, last);
      JoinLast(front, last + tail);
    }
  }

  /** The first text is the second, which no newline ends, with the mark and a newline behind it. */
  predicate Twin(t: string, u: string) {
    u != "" && u[|u| - 1] != '\n' && t == u + [NO_NEWLINE, '\n']
  }

  /** A text without its last newline and its twin have the same lines: the mark written is taken for the
      mark put there. */
  lemma MarkTakenForNoNewline(t: string, u: string)
    requires Twin(t, u)
    ensures TextLines(t) == TextLines(u)
  {
    hide Join, Split;
    LinesJoined(u);
    var ls := TextLines(u);
    assert t == Join(ls) + "\n";
    SplitJoined(ls);
    assert (ls + [""])[..|ls|] == ls;
  }

  /** Two texts have the same lines exactly where they are the same, or one is the other's twin. */
  lemma SameLinesSameText(one: string, two: string)
    ensures TextLines(one) == TextLines(two) <==> one == two || Twin(one, two) || Twin(two, one)
  {
    hide Join, TextLines;
    NoLines();
    if one != "" { LinesJoined(one); }
    if two != "" { LinesJoined(two); }
    if Twin(one, two) { MarkTakenForNoNewline(one, two); }
    if Twin(two, one) { MarkTakenForNoNewline(two, one); }
    if TextLines(one) == TextLines(two) && one != "" && two != "" {
      assert one + [NO_NEWLINE, '\n'] == one + [NO_NEWLINE] + "\n" && two + [NO_NEWLINE, '\n'] == two + [NO_NEWLINE] + "\n";
      assert one == (one + [NO_NEWLINE])[..|one|] && two == (two + [NO_NEWLINE])[..|two|];
    }
  }

  lemma NoLines()
    ensures TextLines("") == []
  {
  }

  lemma {:induction false} NoNewlineIn(text: string, i: nat)
    requires i < |Split(text)|
    ensures '\n' !in Split(text)[i]
  {
    if text != "" {
      if text[0] == '\n' {
        if 0 < i { NoNewlineIn(text[1..], i - 1); }
      } else {
        NoNewlineIn(text[1..], i);
        assert Split(text)[i] == if i == 0 then [text[0]] + Split(text[1..])[0] else Split(text[1..])[i];
      }
    }
  }

  lemma SplitOne(text: string)
    requires text != "" && Split(text)[|Split(text)| - 1] == ""
    ensures 1 < |Split(text)|
  {
    if |Split(text)| == 1 { JoinSplit(text); }
  }

  lemma LastMarked(text: string, out: Lines)
    requires out != [] && text == Join(out) + "\n"
    ensures TextOf(out) == text <==> !EndsWith(text, [NO_NEWLINE, '\n'])
  {
    hide Join;
    var n := |out|;
    var last, j := out[n - 1], Join(out);
    JoinEnd(out);
    EndsBefore(text, j);
    if Marked(last) {
      ShorterJoin(out, last[..|last| - 1]);
    } else {
      JoinLast(out, "");
      assert j + "\n" + "" == text;
      EndOfJoin(out);
    }
  }

  lemma EndsBefore(text: string, j: string)
    requires text == j + "\n"
    ensures EndsWith(text, [NO_NEWLINE, '\n']) <==> j != "" && j[|j| - 1] == NO_NEWLINE
  {
    if j != "" {
      assert text[|text| - 2..] == [j[|j| - 1], '\n'];
    }
  }

  lemma ShorterJoin(out: Lines, last: string)
    requires out != [] && |last| < |out[|out| - 1]|
    ensures |Join(out[..|out| - 1] + [last])| < |Join(out)|
  {
    var front := out[..|out| - 1];
    assert out == front + [out[|out| - 1]];
    if front != [] {
      JoinLast(front, last);
      JoinLast(front, out[|out| - 1]);
    } else {
      assert out[..0] + [last] == [last];
    }
  }

  /** The joined text ends as its last line does, or where that is empty with a newline. */
  lemma EndOfJoin(out: Lines)
    requires out != []
    ensures var j, last := Join(out), out[|out| - 1];
            j != "" ==> j[|j| - 1] == if last == "" then '\n' else last[|last| - 1]
  {
    JoinEnd(out);
    if out[|out| - 1] == "" && 1 < |out| { LineJoin(out); }
  }
}
