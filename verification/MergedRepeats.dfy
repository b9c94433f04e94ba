/**
 The lawful tier as it runs: statements merged, and what is merged repeated (go/format.go:1317-1402,
 fmtEmitStatement and fmtEmit).  What the lines say and hold is told of the body before the merge.
 */
module MergedRepeats {
  import opened Options
  import opened Statements
  import opened MergeRuns
  import opened MergeLaws
  import opened MergeSettled
  import opened RepeatLines

  // ----- what is repeated is a merge

  ghost predicate IsMerge(body: seq<Node>) {
    exists src :: body == Merged(src)
  }

  lemma DeepIsMerge(p: Node)
    requires p.Pair? && PlainEntries(MergeDeep(p).value).Some?
    ensures IsMerge(Sub(MergeDeep(p)))
  {
    hide Merged;
    MembersSmaller(p);
    if p.value.Pair? {
      OneMerged(p.value);
      assert Merged([p.value]) == [Merged([p.value])[0]];
      assert Sub(MergeDeep(p)) == Merged([p.value]);
    } else if p.value.Map? && PlainEntries(p.value).Some? {
      assert Sub(MergeDeep(p)) == Merged(p.value.body);
    }
  }

  /** The map of every statement of a merged body is a merged body. */
  lemma {:induction false} StatementsMerged(body: seq<Node>, p: Node)
    requires p in Merged(body) && p.Pair? && PlainEntries(p.value).Some?
    ensures IsMerge(Sub(p))
    decreases Sizes(body)
  {
    hide Merged, MergeDeep, Members, FirstRun, PlainEntries, Sub, IsMerge;
    if body == [] {
      MergedNone();
    } else {
      var first := body[0];
      MergedStep(body);
      SizesHead(body);
      if first.Pair? && Members(first).Some? && FirstRun(body).grouped {
        var r := FirstRun(body);
        FirstRunBoth(body);
        if p == Joined(first, Merged(r.merged)) {
          JoinedIsMerge(first, r.merged);
        } else {
          StatementsMerged(r.rest, p);
        }
      } else if first.Pair? && p == MergeDeep(first) {
        DeepIsMerge(first);
      } else {
        if !first.Pair? { assert p != first; }
        StatementsMerged(body[1..], p);
      }
    }
  }

  lemma JoinedIsMerge(first: Node, src: seq<Node>)
    requires first.Pair? && PlainEntries(Joined(first, Merged(src)).value).Some?
    ensures IsMerge(Sub(Joined(first, Merged(src))))
  {
    hide Merged;
    assert Sub(Joined(first, Merged(src))) == Merged(src);
  }

  // ----- merged and repeated

  /** The merge keeps whether there is a statement. */
  lemma {:induction false} StatementKept(body: seq<Node>)
    ensures AnyStatement(Merged(body)) <==> AnyStatement(body)
    ensures Merged(body) == [] <==> body == []
    decreases |body|
  {
    hide Merged, MergeDeep, Members, FirstRun, AnyStatement;
    if body == [] {
      MergedNone();
    } else {
      MergedStep(body);
      StatementCons(body[0], body[1..]);
      assert body == [body[0]] + body[1..];
      if !body[0].Pair? {
        StatementKept(body[1..]);
        StatementCons(body[0], Merged(body[1..]));
      } else {
        var head := Merged(body)[0];
        assert head.Pair? by { DeepPair(body[0]); }
        StatementCons(head, Merged(body)[1..]);
        assert Merged(body) == [head] + Merged(body)[1..];
      }
    }
  }

  lemma StatementCons(e: Node, rest: seq<Node>)
    ensures AnyStatement([e] + rest) <==> !Filler(e) || AnyStatement(rest)
  {
    assert ([e] + rest)[1..] == rest;
  }

  /** A separator lost stands further below than the body. */
  lemma LostLonger(body: seq<Node>, path: seq<Step>)
    ensures Longer(Lost(body, path, true), |path|)
  {
    hide BodyFacts, Lost, Kept;
    MergedFacts(body, path, true);
    BodyFrom(body, path);
    forall f | f in Lost(body, path, true) ensures |path| < |f.path| { LostOther(body, path, f); }
  }

  /** What a body says that its merge, repeated, does not: the separators lost and the maps not heard. */
  function Missing(fits: Fits, body: seq<Node>, heads: seq<Head>, path: seq<Step>): set<Fact> {
    Lost(body, path, true) + Unsaid(fits, Merged(body), heads, path)
  }

  /** Merged and repeated, a body says what it said exactly where something is heard of its merge and says
      all that is missing. */
  lemma MergedRepeatMeans(fits: Fits, body: seq<Node>, heads: seq<Head>, path: seq<Step>)
    requires Repeat(fits, Merged(body), heads).Some?
    ensures LinesFacts(Repeat(fits, Merged(body), heads).value, path)
         == HeadsFacts(heads, path) + {Fact(Below(heads, path), IsMap)} + BodyFacts(body, Below(heads, path), true)
         <==> var heard, at := Heard(fits, Merged(body), heads), Below(heads, path);
              heard != [] && Missing(fits, body, heads, at) <= BodyFacts(heard, at, true)
  {
    hide Repeat, Merged, Said, LinesFacts, HeadsFacts, BodyFacts, Lost, Kept, Heard, Unsaid, Below;
    var at := Below(heads, path);
    RepeatHeard(fits, Merged(body), heads, path);
    HeardParts(fits, Merged(body), heads, at);
    MergedFacts(body, at, true);
    LostLonger(body, at);
    UnsaidLonger(fits, Merged(body), heads, at);
    LongerBoth(Lost(body, at, true), Unsaid(fits, Merged(body), heads, at), |at|);
    HeardAll(Heard(fits, Merged(body), heads), Missing(fits, body, heads, at), heads, path);
  }

  /** Merged and repeated, every value and comment of a body stands, in order, exactly where no statement
      of the merged body with a comment is written below in lines that end blank. */
  lemma MergedRepeatWritten(fits: Fits, body: seq<Node>, heads: seq<Head>)
    requires Repeat(fits, Merged(body), heads).Some?
    ensures LinesWritten(Repeat(fits, Merged(body), heads).value) == WrittenBody(body) <==> !Loses(fits, Merged(body), heads)
  {
    hide Repeat, Merged, LinesWritten, WrittenBody, Loses;
    RepeatWritten(fits, Merged(body), heads);
    MergedWritten(body);
  }

  // ----- bodies of which nothing is lost

  ghost predicate Ended(body: seq<Node>) {
    body != [] && !body[|body| - 1].Blank?
  }

  /** Every plain map below has entries, the last of them no blank line. */
  ghost predicate NeatIn(e: Node)
    decreases e, 1
  {
    e.Pair? ==> NeatValue(e.value)
  }

  ghost predicate NeatValue(v: Node)
    decreases v, 2
  {
    match v
    case Pair(_, _, _, _, _) => NeatIn(v)
    case Map(body, _) => PlainEntries(v).Some? ==> Ended(body) && forall i :: 0 <= i < |body| ==> NeatIn(body[i])
    case _ => true
  }

  ghost predicate Neat(body: seq<Node>) {
    forall e :: e in body ==> NeatIn(e)
  }

  lemma NeatSub(p: Node)
    requires p.Pair? && PlainEntries(p.value).Some?
    ensures NeatIn(p) <==> Ended(Sub(p)) && Neat(Sub(p))
  {
    if p.value.Map? {
      var body := p.value.body;
      assert Neat(body) <==> forall i :: 0 <= i < |body| ==> NeatIn(body[i]);
    } else {
      assert Sub(p) == [p.value] && p.value in Sub(p);
      assert p.value.Pair?;
      assert NeatIn(p) <==> NeatIn(p.value);
      assert forall e :: e in Sub(p) <==> e == p.value;
    }
  }

  lemma NeatMembers(p: Node)
    requires p.Pair? && NeatIn(p) && Members(p).Some?
    ensures Ended(Members(p).value) && Neat(Members(p).value)
  {
    hide NeatIn;
    NeatSub(p);
    if p.trail != "" {
      var entries := Sub(p);
      SunkNeat(entries[|entries| - 1], p.trail);
      assert entries[|entries| - 1] in entries;
    }
  }

  lemma SunkNeat(last: Node, trail: string)
    requires last.Pair? || last.Spread?
    ensures NeatIn(Sunk(last, trail)) <==> NeatIn(last)
  {
  }

  /** A run of neat statements has neat entries, and what is left ends as the body did. */
  lemma {:induction false} RunNeat(first: Node, merged: seq<Node>, carry: seq<Node>, rest: seq<Node>, grouped: bool)
    requires first.Pair? && Fillers(carry) && Neat(rest) && Neat(merged) && Ended(merged)
    ensures var r := RunFrom(first, merged, carry, rest, grouped);
            Ended(r.merged) && Neat(r.merged) && Neat(r.rest) && (r.rest != [] && Ended(carry + rest) ==> Ended(r.rest))
            && (r.rest != [] ==> carry + rest != [])
    decreases |rest|
  {
    hide Joins, Members, NeatIn;
    RunStep(first, merged, carry, rest, grouped);
    FillersNeat(carry);
    if rest != [] {
      var n := rest[0];
      assert n in rest && forall e :: e in rest[1..] ==> e in rest;
      if Filler(n) {
        FillersPush(carry, n);
        RunNeat(first, merged, carry + [n], rest[1..], grouped);
        assert (carry + [n]) + rest[1..] == carry + rest;
      } else if Joins(first, merged, n) {
        JoinIs(first, merged, n);
        var more := Members(n).value;
        NeatMembers(n);
        RunNeat(first, merged + carry + more, [], rest[1..], true);
        assert [] + rest[1..] == rest[1..];
      }
    }
  }

  lemma FillersNeat(carry: seq<Node>)
    requires Fillers(carry)
    ensures Neat(carry)
  {
  }

  lemma {:induction false} DeepNeat(p: Node)
    requires p.Pair? && NeatIn(p)
    ensures NeatIn(MergeDeep(p))
    decreases Size(p), 0
  {
    hide Merged, NeatIn;
    MembersSmaller(p);
    var deep := MergeDeep(p);
    if p.value.Pair? {
      OneMerged(p.value);
      assert Merged([p.value]) == [Merged([p.value])[0]];
      NeatSub(p);
      MergedNeat([p.value]);
      assert Sub(deep) == Merged([p.value]);
      NeatSub(deep);
    } else if p.value.Map? && PlainEntries(p.value).Some? {
      NeatSub(p);
      MergedNeat(p.value.body);
      if PlainEntries(deep.value).Some? { NeatSub(deep); } else { NotPlain(deep); }
    }
  }

  lemma NotPlain(p: Node)
    requires p.Pair? && PlainEntries(p.value).None?
    ensures NeatIn(p)
  {
  }

  /** The merge of a neat body is neat, and ends in no blank line where the body did not. */
  lemma {:induction false} MergedNeat(body: seq<Node>)
    requires Neat(body)
    ensures Neat(Merged(body)) && (Ended(body) ==> Ended(Merged(body)))
    decreases Sizes(body), 1
  {
    hide NeatIn, Merged, MergeDeep, Members, FirstRun, Joined, RunFrom;
    if body == [] {
      MergedNone();
    } else {
      var first := body[0];
      MergedStep(body);
      SizesHead(body);
      StatementKept(body[1..]);
      assert first in body && forall e :: e in body[1..] ==> e in body;
      if first.Pair? && Members(first).Some? && FirstRun(body).grouped {
        var r := FirstRun(body);
        FirstRunBoth(body);
        FirstRunIs(body);
        NeatMembers(first);
        RunNeat(first, Members(first).value, [], body[1..], false);
        assert [] + body[1..] == body[1..];
        assert Ended(body) && body[1..] != [] ==> Ended(body[1..]);
        MergedNeat(r.merged);
        MergedNeat(r.rest);
        JoinedNeat(first, Merged(r.merged));
        StatementKept(r.rest);
      } else {
        if first.Pair? {
          DeepNeat(first);
          DeepPair(first);
        }
        MergedNeat(body[1..]);
      }
    }
  }

  lemma JoinedNeat(first: Node, body: seq<Node>)
    requires first.Pair? && Ended(body) && Neat(body)
    ensures NeatIn(Joined(first, body)) && Joined(first, body).Pair?
  {
    hide NeatIn;
    var p := Joined(first, body);
    if PlainEntries(p.value).Some? { NeatSub(p); } else { NotPlain(p); }
  }

  lemma {:induction false} NeatEnds(fits: Fits, entries: seq<Node>, heads: seq<Head>)
    requires Neat(entries) && Ended(entries)
    ensures !EndsBlank(fits, entries, heads)
    decreases Sizes(entries)
  {
    hide NeatIn, Repeated;
    var last := entries[|entries| - 1];
    assert last in entries;
    LastSize(entries);
    if Repeated(fits, last, heads) {
      RepeatedIs(fits, last, heads);
      NeatSub(last);
      NeatEnds(fits, Sub(last), heads + [HeadOf(last)]);
    }
  }

  lemma {:induction false} NeatStands(fits: Fits, entries: seq<Node>, heads: seq<Head>)
    requires Neat(entries)
    ensures !Loses(fits, entries, heads)
    decreases Sizes(entries)
  {
    hide NeatIn, Repeated, EndsBlank;
    if entries != [] {
      MembersBelow(entries);
      SizesHead(entries);
      var e := entries[0];
      assert e in entries && forall x :: x in entries[1..] ==> x in entries;
      if Repeated(fits, e, heads) {
        RepeatedIs(fits, e, heads);
        NeatSub(e);
        NeatEnds(fits, Sub(e), heads + [HeadOf(e)]);
        NeatStands(fits, Sub(e), heads + [HeadOf(e)]);
      }
      NeatStands(fits, entries[1..], heads);
    }
  }

  lemma {:induction false} LastStatement(entries: seq<Node>)
    requires entries != [] && !Filler(entries[|entries| - 1])
    ensures AnyStatement(entries)
  {
    if 1 < |entries| {
      assert entries[1..][|entries| - 2] == entries[|entries| - 1];
      LastStatement(entries[1..]);
    }
  }

  lemma {:induction false} NeatSpoken(fits: Fits, entries: seq<Node>, heads: seq<Head>)
    requires Neat(entries) && LinesFrom(fits, entries, heads).Some?
    ensures Spoken(fits, entries, heads)
    decreases Sizes(entries)
  {
    hide NeatIn, AnyStatement;
    if entries != [] {
      MembersBelow(entries);
      SizesHead(entries);
      var e := entries[0];
      assert e in entries && forall x :: x in entries[1..] ==> x in entries;
      if Repeated(fits, e, heads) {
        NeatSub(e);
        RepeatBelow(fits, e, heads);
        LastStatement(Sub(e));
        NeatSpoken(fits, Sub(e), heads + [HeadOf(e)]);
      }
      NeatSpoken(fits, entries[1..], heads);
    }
  }

  lemma RepeatBelow(fits: Fits, e: Node, heads: seq<Head>)
    requires Repeated(fits, e, heads) && EntryLines(fits, e, heads).Some?
    ensures LinesFrom(fits, Sub(e), heads + [HeadOf(e)]).Some? && Sub(e) != [] && !Sub(e)[|Sub(e)| - 1].Comment?
  {
    hide LinesFrom;
  }

  /** A neat body, merged and repeated: everything it holds stands, and what it says is said exactly where
      the merge loses nothing of it. */
  lemma NeatRepeats(fits: Fits, body: seq<Node>, heads: seq<Head>, path: seq<Step>)
    requires Neat(body) && Ended(body) && Repeat(fits, Merged(body), heads).Some?
    ensures LinesWritten(Repeat(fits, Merged(body), heads).value) == WrittenBody(body)
    ensures LinesFacts(Repeat(fits, Merged(body), heads).value, path) == Under(heads, path) + BodyFacts(body, Below(heads, path), true)
            <==> Lost(body, Below(heads, path), true) <= Kept(body, Below(heads, path), true)
  {
    hide Merged, LinesFrom, LinesWritten, WrittenBody, Loses, Spoken, LinesFacts, HeadsFacts, BodyFacts, Lost, Kept, AnyStatement, Below,
         Neat, Heard, Unsaid;
    var at := Below(heads, path);
    MergedNeat(body);
    NeatStands(fits, Merged(body), heads);
    MergedRepeatWritten(fits, body, heads);
    NeatSpoken(fits, Merged(body), heads);
    SpokenAll(fits, Merged(body), heads, at);
    HeardParts(fits, Merged(body), heads, at);
    MergedFacts(body, at, true);
    MergedRepeatMeans(fits, body, heads, path);
    LastStatement(Merged(body));
  }

  // ----- a comment the program itself loses

  function Plain(key: string, value: Node, trail: string): Node {
    Pair(key, false, false, value, trail)
  }

  /** `a: { x: 1 }`, a blank line and `a: {}`, which merge into `a: { x: 1 <blank> }`. */
  lemma BlankKept(x: Node)
    requires x.Pair? && x.value.Value? && x.trail == ""
    ensures Merged([Plain("a", Map([x], ""), ""), Blank, Plain("a", Map([], ""), "")]) == [Plain("a", Map([x, Blank], ""), "")]
  {
    hide Merged, FirstRun, RunFrom;
    var ax, a0 := Plain("a", Map([x], ""), ""), Plain("a", Map([], ""), "");
    var body := [ax, Blank, a0];
    assert body[1..] == [Blank, a0] && [Blank, a0][1..] == [a0] && [a0][1..] == [];
    NoMembers(a0);
    assert Members(ax) == Some([x]);
    var none: seq<Node> := [];
    assert none + [Blank] == [Blank] && [x] + [Blank] + none == [x, Blank];
    FirstRunIs(body);
    RunStep(ax, [x], [], [Blank, a0], false);
    RunStep(ax, [x], [Blank], [a0], false);
    RunStep(ax, [x, Blank], [], [], true);
    assert FirstRun(body) == Run([x, Blank], true, none);
    MergedStep(body);
    ValueAlone(x, [Blank]);
    MergedStep([Blank]);
    assert [Blank][1..] == none;
    MergedNone();
    assert [x] + [Blank] == [x, Blank] && [Blank] + none == [Blank];
    assert Merged([x, Blank]) == [x, Blank];
    assert Merged(body) == [Joined(ax, [x, Blank])] + none;
  }

  lemma ValueAlone(x: Node, rest: seq<Node>)
    requires x.Pair? && x.value.Value?
    ensures Merged([x] + rest) == [x] + Merged(rest)
  {
    hide Merged, FirstRun;
    MergedStep([x] + rest);
    assert ([x] + rest)[1..] == rest;
  }

  lemma BlankNotInline(x: Node)
    ensures !Inline(Map([x, Blank], "")) && !Inline(Plain("a", Map([x, Blank], ""), ""))
  {
    assert [x, Blank][1..] == [Blank];
    assert !InlineAll([Blank]);
    assert !InlineAll([x, Blank]);
    assert Chain(Map([x, Blank], "")) == Map([x, Blank], "");
  }

  /** Written below, the merged map ends in its blank line. */
  lemma BlankEnds(fits: Fits, x: Node, at: seq<Head>)
    requires x.Pair? && x.value.Value?
    ensures EndsBlank(fits, [Plain("a", Map([x, Blank], ""), "")], at)
  {
    hide Inline;
    BlankNotInline(x);
    var am, entries := Plain("a", Map([x, Blank], ""), ""), [x, Blank];
    assert Chain(am.value) == am.value;
    assert entries[1..] == [Blank] && [Blank][1..] == [];
    assert PlainPairs([Blank]) == 0 && PlainPairs(entries) == 1;
    assert Sub(am) == entries;
    assert EndsBlank(fits, entries, at + [HeadOf(am)]);
    assert LastBlank(fits, am, at);
  }

  lemma BlankLines(fits: Fits, x: Node, at: seq<Head>)
    requires x.Pair? && x.value.Value? && x.value.oneLine
    requires fits(at + [Head("a", false, false)] + [HeadOf(x)], x.value)
    ensures Repeat(fits, [Plain("a", Map([x, Blank], ""), "")], at).Some?
  {
    hide Inline;
    BlankNotInline(x);
    var am, entries := Plain("a", Map([x, Blank], ""), ""), [x, Blank];
    var below := at + [HeadOf(am)];
    assert entries[1..] == [Blank] && [Blank][1..] == [] && [am][1..] == [];
    assert EntryLines(fits, x, below).Some? by { assert Inline(x.value) by { OneLine(x.value); } }
    LinesNone(fits, below);
    LinesNone(fits, at);
    assert LinesFrom(fits, [Blank], below).Some?;
    assert LinesFrom(fits, entries, below).Some?;
    assert Spreads(entries) == 0 by { assert Spreads([Blank]) == 0; }
    assert Repeat(fits, entries, below).Some?;
    assert Chain(am.value) == am.value && Sub(am) == entries;
    assert EntryLines(fits, am, at).Some?;
    assert LinesFrom(fits, [am], at).Some?;
    assert Spreads([am]) == 0;
  }

  lemma OneLine(v: Node)
    requires v.Value? && v.oneLine
    ensures Inline(v) && Chain(v) == v
  {
  }

  /** A body as it is read, of which the program loses a comment: `b: { a: { x: 1 } <blank> a: {} } # k`
      and `y: 2` under any heads.  The merge leaves the blank line last in `b`, the comment is put behind it,
      and a blank line is written without. */
  lemma CommentLost(fits: Fits, heads: seq<Head>, k: string)
    requires k != ""
    requires fits(heads + [Head("b", false, false)] + [Head("a", false, false)] + [Head("x", false, false)], Value("1", true))
    requires fits(heads + [Head("y", false, false)], Value("2", true))
    ensures var x, y := Plain("x", Value("1", true), ""), Plain("y", Value("2", true), "");
            var body := [Plain("b", Map([Plain("a", Map([x], ""), ""), Blank, Plain("a", Map([], ""), "")], ""), k), y];
            && Merged(body) == [Plain("b", Map([Plain("a", Map([x, Blank], ""), "")], ""), k), y]
            && Repeat(fits, Merged(body), heads).Some? && Loses(fits, Merged(body), heads)
            && LinesWritten(Repeat(fits, Merged(body), heads).value) != WrittenBody(body)
  {
    hide Merged, FirstRun, Repeat, EndsBlank, LinesWritten, WrittenBody, Inline, MergeDeep;
    var x, y := Plain("x", Value("1", true), ""), Plain("y", Value("2", true), "");
    var inner := [Plain("a", Map([x], ""), ""), Blank, Plain("a", Map([], ""), "")];
    var b, am := Plain("b", Map(inner, ""), k), Plain("a", Map([x, Blank], ""), "");
    var body, bm := [b, y], Plain("b", Map([am], ""), k);
    BlankKept(x);
    BlankDeep(b, inner, [am]);
    assert body[1..] == [y] && [y][1..] == [];
    AloneMerged(b, y);
    ValueAlone(y, []);
    var none: seq<Node> := [];
    assert [y] + none == [y];
    MergedNone();
    assert Merged([y]) == [y];
    assert MergeDeep(b) == bm;
    assert [bm] + [y] == [bm, y];
    assert Merged(body) == [bm, y];
    var at := heads + [HeadOf(bm)];
    BlankEnds(fits, x, at);
    BlankLines(fits, x, at);
    BlankNotInline(x);
    assert [bm, y][1..] == [y] && [am][1..] == [];
    BlankRepeated(fits, bm, am, heads);
    assert LosesIn(fits, bm, heads);
    OneLine(y.value);
    BothLines(fits, bm, y, heads);
    MergedRepeatWritten(fits, body, heads);
  }

  lemma BlankDeep(b: Node, inner: seq<Node>, out: seq<Node>)
    requires b.Pair? && b.value == Map(inner, "") && PlainEntries(b.value).Some? && Merged(inner) == out
    ensures MergeDeep(b) == WithValue(b, Map(out, ""))
  {
    hide Merged;
  }

  lemma AloneMerged(b: Node, y: Node)
    requires b.Pair? && y.Pair? && b.key != y.key
    ensures Merged([b, y]) == [MergeDeep(b)] + Merged([y])
  {
    hide Merged, MergeDeep, Members, FirstRun, RunFrom;
    MergedStep([b, y]);
    assert [b, y][1..] == [y];
    if Members(b).Some? {
      FirstRunIs([b, y]);
      RunStep(b, Members(b).value, [], [y], false);
    }
  }

  lemma BlankRepeated(fits: Fits, bm: Node, am: Node, heads: seq<Head>)
    requires bm.Pair? && bm.value == Map([am], "") && am.Pair? && !Inline(am) && PlainEntries(am.value).Some?
    ensures Repeated(fits, bm, heads) && Sub(bm) == [am]
  {
    hide Inline;
    assert Chain(bm.value) == am;
    assert am in [am];
  }

  lemma BothLines(fits: Fits, bm: Node, y: Node, heads: seq<Head>)
    requires Repeated(fits, bm, heads) && Repeat(fits, Sub(bm), heads + [HeadOf(bm)]).Some?
    requires y.Pair? && y.value.Value? && y.value.oneLine && fits(heads + [HeadOf(y)], y.value)
    ensures Repeat(fits, [bm, y], heads).Some?
  {
    hide Inline, Record, PlainEntries;
    OneLine(y.value);
    assert [bm, y][1..] == [y] && [y][1..] == [];
    LinesNone(fits, heads);
    assert EntryLines(fits, y, heads).Some?;
    assert LinesFrom(fits, [y], heads).Some?;
    assert EntryLines(fits, bm, heads).Some? by { hide Repeat; }
    assert LinesFrom(fits, [bm, y], heads).Some?;
    assert Spreads([bm, y]) == 0 by { assert Spreads([y]) == 0; }
  }

  // ----- a statement the program leaves unsaid

  lemma EmptiesJoin(y: Node)
    requires y.Pair? && y.value.Value? && y.key != "a"
    ensures var a0 := Plain("a", Map([], ""), ""); Merged([a0, Blank, a0, y]) == [Plain("a", Map([Blank], ""), ""), y]
  {
    hide Merged, FirstRun, RunFrom, Members;
    var a0 := Plain("a", Map([], ""), "");
    var body := [a0, Blank, a0, y];
    assert body[1..] == [Blank, a0, y] && [Blank, a0, y][1..] == [a0, y] && [a0, y][1..] == [y];
    NoMembers(a0);
    var none: seq<Node> := [];
    assert none + [Blank] == [Blank] && none + [Blank] + none == [Blank] && none + [y] == [y];
    FirstRunIs(body);
    RunStep(a0, none, none, [Blank, a0, y], false);
    RunStep(a0, none, [Blank], [a0, y], false);
    RunStep(a0, [Blank], none, [y], true);
    assert FirstRun(body) == Run([Blank], true, [y]);
    MergedStep(body);
    MergedStep([Blank]);
    assert [Blank][1..] == none && [Blank] + none == [Blank] && [y] + none == [y];
    ValueAlone(y, none);
    MergedNone();
    assert Merged([y]) == [y];
    assert Merged(body) == [Joined(a0, [Blank])] + [y];
  }

  lemma BlankUnheard(fits: Fits, heads: seq<Head>, path: seq<Step>)
    ensures var am := Plain("a", Map([Blank], ""), "");
            && Repeated(fits, am, heads) && HeardIn(fits, am, heads) == []
            && Fact(path + [Key("a")], Field) in UnsaidIn(fits, am, heads, path)
            && EntryLines(fits, am, heads) == Some([BlankLine])
  {
    var am, none := Plain("a", Map([Blank], ""), ""), [Blank][1..];
    assert none == [];
    assert Chain(am.value) == am.value && !InlineAll([Blank]) && !Inline(am.value);
    assert PlainPairs([Blank]) == 0 && Spreads([Blank]) == 0;
    var at := heads + [HeadOf(am)];
    assert Heard(fits, [Blank], at) == [];
    LinesNone(fits, at);
    var noLines: seq<Line> := [];
    assert EntryLines(fits, Blank, at) == Some([BlankLine]) && LinesFrom(fits, [], at) == Some(noLines) && [BlankLine] + noLines == [BlankLine];
    assert LinesFrom(fits, [Blank], at) == Some([BlankLine]);
    assert Repeat(fits, [Blank], at) == Some([BlankLine]);
  }

  /** A body as it is read, of which the program says less though it has a statement: `a: {}`, a blank line,
      `a: {}` and `y: 2` under any heads, which say `y: 2` alone. */
  lemma MapUnsaid(fits: Fits, heads: seq<Head>, path: seq<Step>)
    requires fits(heads + [Head("y", false, false)], Value("2", true))
    ensures var a0, y := Plain("a", Map([], ""), ""), Plain("y", Value("2", true), "");
            var body := [a0, Blank, a0, y];
            && AnyStatement(body) && Repeat(fits, Merged(body), heads).Some?
            && LinesFacts(Repeat(fits, Merged(body), heads).value, path) != Under(heads, path) + BodyFacts(body, Below(heads, path), true)
  {
    hide Merged, LinesFacts, HeadsFacts, Below, Inline, Repeated, EntryLines, HeardIn, UnsaidIn, Lost;
    var a0, am, y := Plain("a", Map([], ""), ""), Plain("a", Map([Blank], ""), ""), Plain("y", Value("2", true), "");
    var body, merged, at := [a0, Blank, a0, y], [am, y], Below(heads, path);
    EmptiesJoin(y);
    BlankUnheard(fits, heads, at);
    ValueHeard(fits, y, heads, at);
    assert merged[1..] == [y] && [y][1..] == [];
    LinesNone(fits, heads);
    assert LinesFrom(fits, [y], heads).Some?;
    assert LinesFrom(fits, merged, heads).Some?;
    assert Spreads(merged) == 0 by { assert Spreads([y]) == 0; }
    assert Heard(fits, [y], heads) == [y];
    assert Heard(fits, merged, heads) == [y];
    MergedRepeatMeans(fits, body, heads, path);
    assert Fact(at + [Key("a")], Field) in Unsaid(fits, merged, heads, at);
    NotIn(y, at);
  }

  lemma ValueHeard(fits: Fits, y: Node, heads: seq<Head>, path: seq<Step>)
    requires y.Pair? && y.value.Value? && y.value.oneLine && fits(heads + [HeadOf(y)], y.value)
    ensures EntryLines(fits, y, heads).Some? && HeardIn(fits, y, heads) == [y]
  {
    OneLine(y.value);
  }

  lemma NotIn(y: Node, path: seq<Step>)
    requires y == Plain("y", Value("2", true), "")
    ensures Fact(path + [Key("a")], Field) !in BodyFacts([y], path, true)
  {
    FactsOne(y, path, true);
    assert (path + [Key("a")])[|path|] != (path + [Key("y")])[|path|];
  }
}
