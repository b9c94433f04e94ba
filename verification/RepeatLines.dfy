/**
 The formatter's repeated prefixes (go/format.go:1223-1315): a map too wide for its line is
 written a line per entry, each with the whole prefix.  Read back, the lines mean the map.
 */
module RepeatLines {
  import opened Options
  import opened Statements
  import opened MergeRuns
  import opened MergeLaws
  import opened MergeSettled

  /** What stands before a value: its key, `?` and separator. */
  datatype Head = Head(key: string, opt: bool, alias: bool)

  /** A line: the heads written before its value, the value, and a trailing comment.  A block
      opens a braced map after its heads. */
  datatype Line =
    | BlankLine
    | CommentLine(text: string)
    | Text(heads: seq<Head>, value: Node, trail: string)
    | Block(heads: seq<Head>, value: Node, trail: string)

  /** Whether heads and a value fit their line: the layout's own business. */
  type Fits = (seq<Head>, Node) -> bool

  function HeadOf(e: Node): Head
    requires e.Pair?
  {
    Head(e.key, e.opt, e.alias)
  }

  /** fmtChain: a map of one pair as a chain. */
  function Chain(v: Node): Node {
    if v.Map? && v.open == "" && |v.body| == 1 && v.body[0].Pair? then v.body[0] else v
  }

  lemma ChainSize(v: Node)
    ensures Size(Chain(v)) <= Size(v)
  {
    if v.Map? && |v.body| == 1 { assert v.body[1..] == []; }
  }

  /** fmtInline: whether a node has a one-line spelling. */
  predicate Inline(n: Node)
    decreases Size(n), 1
  {
    match n
    case Pair(_, _, _, v, trail) => ChainSize(v); trail == "" && Inline(Chain(v))
    case Spread(v, trail) => trail == "" && Inline(v)
    case Map(body, open) => open == "" && InlineAll(body)
    case Include(_) => true
    case Value(_, oneLine) => oneLine
    case _ => false
  }

  predicate InlineAll(body: seq<Node>)
    decreases Sizes(body), 2
  {
    body == [] || (Inline(body[0]) && InlineAll(body[1..]))
  }

  function PlainPairs(entries: seq<Node>): nat {
    if entries == [] then 0 else (if entries[0].Pair? then 1 else 0) + PlainPairs(entries[1..])
  }

  /** fmtRecord: a braced map of two fields or more, none of them a map, kept as a block. */
  predicate Record(v: Node, entries: seq<Node>) {
    v.Map? && Spreads(entries) == 0 && (forall e :: e in entries && e.Pair? ==> PlainEntries(e.value).None?) && 1 < PlainPairs(entries)
  }

  /** A comment behind a line: behind the closer, where the line opens a block. */
  function Trailed(l: Line, trail: string): Line {
    match l
    case Text(heads, value, t) => Text(heads, value, if t == "" then trail else t + " " + trail)
    case Block(heads, value, t) => Block(heads, value, if t == "" then trail else t + " " + trail)
    case _ => l
  }

  /** fmtRepeatLines. */
  function Repeat(fits: Fits, entries: seq<Node>, heads: seq<Head>): (out: Option<seq<Line>>)
    ensures out.Some? ==> out.value != []
    decreases Sizes(entries), 2
  {
    if entries == [] || entries[|entries| - 1].Comment? || 1 < Spreads(entries) then None
    else LinesFrom(fits, entries, heads)
  }

  function LinesFrom(fits: Fits, entries: seq<Node>, heads: seq<Head>): (out: Option<seq<Line>>)
    ensures out.Some? && entries != [] ==> out.value != []
    decreases Sizes(entries), 1
  {
    if entries == [] then Some([])
    else
      MembersBelow(entries);
      var here := EntryLines(fits, entries[0], heads);
      var rest := LinesFrom(fits, entries[1..], heads);
      if here.None? || rest.None? then None else Some(here.value + rest.value)
  }

  function EntryLines(fits: Fits, e: Node, heads: seq<Head>): (out: Option<seq<Line>>)
    ensures out.Some? ==> out.value != []
    decreases Size(e), 0
  {
    match e
    case Blank => Some([BlankLine])
    case Comment(text) => Some([CommentLine(text)])
    case Spread(v, trail) =>
      var alone := Map([Spread(v, "")], "");
      if Inline(v) && fits(heads, alone) then Some([Text(heads, alone, trail)]) else None
    case Pair(_, _, _, v, trail) =>
      var at := heads + [HeadOf(e)];
      if Inline(Chain(v)) && fits(at, Chain(v)) then Some([Text(at, Chain(v), trail)])
      else if PlainEntries(v).None? then None
      else
        PlainSize(v);
        var sub := Repeat(fits, PlainEntries(v).value, at);
        if sub.None? then None
        else if Record(v, PlainEntries(v).value) then Some([Block(at, v, trail)])
        else if trail == "" then sub
        else
          var lines := sub.value;
          Some(lines[..|lines| - 1] + [Trailed(lines[|lines| - 1], trail)])
    case _ => None
  }

  /** fmtRepeatLines's loop over the entries. */
  method RepeatLoop(fits: Fits, entries: seq<Node>, heads: seq<Head>) returns (out: Option<seq<Line>>)
    ensures out == Repeat(fits, entries, heads)
    decreases Sizes(entries), 2
  {
    hide Inline, Record, PlainEntries, Chain, LinesFrom, EntryLines;
    var spreads := 0;
    for k := 0 to |entries|
      invariant spreads + Spreads(entries[k..]) == Spreads(entries)
    {
      assert entries[k..][1..] == entries[k + 1..];
      if entries[k].Spread? { spreads := spreads + 1; }
    }
    if |entries| == 0 || entries[|entries| - 1].Comment? || 1 < spreads { return None; }
    var lines := [];
    var k := 0;
    assert entries[0..] == entries;
    LinesJoin(fits, entries, heads, 0, []);
    while k < |entries|
      invariant k <= |entries|
      invariant LinesFrom(fits, entries, heads) == Before(lines, LinesFrom(fits, entries[k..], heads))
    {
      SizesLeft(entries, k);
      LinesJoin(fits, entries, heads, k, lines);
      var here := EntryLoop(fits, entries[k], heads);
      if here.None? { return None; }
      lines := lines + here.value;
      k := k + 1;
    }
    LinesNone(fits, heads);
    assert lines + [] == lines;
    return Some(lines);
  }

  function Before(lines: seq<Line>, rest: Option<seq<Line>>): Option<seq<Line>> {
    if rest.None? then None else Some(lines + rest.value)
  }

  lemma LinesNone(fits: Fits, heads: seq<Head>)
    ensures LinesFrom(fits, [], heads) == Some([])
  {
  }

  lemma LinesJoin(fits: Fits, entries: seq<Node>, heads: seq<Head>, k: nat, lines: seq<Line>)
    requires k <= |entries|
    ensures k < |entries| ==>
              Before(lines, LinesFrom(fits, entries[k..], heads)) == if EntryLines(fits, entries[k], heads).None? then None
              else Before(lines + EntryLines(fits, entries[k], heads).value, LinesFrom(fits, entries[k + 1..], heads))
    ensures lines == [] ==> Before(lines, LinesFrom(fits, entries, heads)) == LinesFrom(fits, entries, heads)
  {
    hide EntryLines;
    if k < |entries| {
      assert entries[k..][1..] == entries[k + 1..];
      if EntryLines(fits, entries[k], heads).Some? && LinesFrom(fits, entries[k + 1..], heads).Some? {
        LinesAssoc(lines, EntryLines(fits, entries[k], heads).value, LinesFrom(fits, entries[k + 1..], heads).value);
      }
    }
    if lines == [] && LinesFrom(fits, entries, heads).Some? {
      assert lines + LinesFrom(fits, entries, heads).value == LinesFrom(fits, entries, heads).value;
    }
  }

  lemma LinesAssoc(a: seq<Line>, b: seq<Line>, c: seq<Line>)
    ensures a + (b + c) == (a + b) + c
  {
  }

  /** A statement's lines, case by case. */
  lemma PairLines(fits: Fits, e: Node, heads: seq<Head>)
    requires e.Pair?
    ensures var at := heads + [HeadOf(e)];
            && (Inline(Chain(e.value)) && fits(at, Chain(e.value)) ==> EntryLines(fits, e, heads) == Some([Text(at, Chain(e.value), e.trail)]))
            && (!(Inline(Chain(e.value)) && fits(at, Chain(e.value))) ==>
                  && (PlainEntries(e.value).None? ==> EntryLines(fits, e, heads) == None)
                  && (PlainEntries(e.value).Some? ==>
                        EntryLines(fits, e, heads) == BelowLines(Repeat(fits, PlainEntries(e.value).value, at), at, e)))
  {
    hide Inline, Record, PlainEntries, Chain, Repeat;
  }

  /** A statement's lines, of those its map is repeated into. */
  function BelowLines(sub: Option<seq<Line>>, at: seq<Head>, e: Node): (out: Option<seq<Line>>)
    requires e.Pair? && PlainEntries(e.value).Some? && (sub.Some? ==> sub.value != [])
  {
    if sub.None? then None
    else if Record(e.value, PlainEntries(e.value).value) then Some([Block(at, e.value, e.trail)])
    else if e.trail == "" then sub
    else Some(sub.value[..|sub.value| - 1] + [Trailed(sub.value[|sub.value| - 1], e.trail)])
  }

  /** One entry's lines. */
  method EntryLoop(fits: Fits, e: Node, heads: seq<Head>) returns (out: Option<seq<Line>>)
    ensures out == EntryLines(fits, e, heads)
    decreases Size(e), 1
  {
    match e
    case Blank => return Some([BlankLine]);
    case Comment(text) => return Some([CommentLine(text)]);
    case Spread(v, trail) =>
      var alone := Map([Spread(v, "")], "");
      return if Inline(v) && fits(heads, alone) then Some([Text(heads, alone, trail)]) else None;
    case Pair(_, _, _, _, _) => out := PairLoop(fits, e, heads);
    case _ => return None;
  }

  method PairLoop(fits: Fits, e: Node, heads: seq<Head>) returns (out: Option<seq<Line>>)
    requires e.Pair?
    ensures out == EntryLines(fits, e, heads)
    decreases Size(e), 0
  {
    hide *;
    var v, trail := e.value, e.trail;
    var at := heads + [HeadOf(e)];
    PairLines(fits, e, heads);
    if Inline(Chain(v)) && fits(at, Chain(v)) { return Some([Text(at, Chain(v), trail)]); }
    if PlainEntries(v).None? { return None; }
    MembersSmaller(e);
    var sub := RepeatLoop(fits, PlainEntries(v).value, at);
    BelowIs(sub, at, e);
    if sub.None? { return None; }
    if Record(v, PlainEntries(v).value) { return Some([Block(at, v, trail)]); }
    if trail == "" { return sub; }
    var lines := sub.value;
    return Some(lines[..|lines| - 1] + [Trailed(lines[|lines| - 1], trail)]);
  }

  lemma BelowIs(sub: Option<seq<Line>>, at: seq<Head>, e: Node)
    requires e.Pair? && PlainEntries(e.value).Some? && (sub.Some? ==> sub.value != [])
    ensures sub.None? ==> BelowLines(sub, at, e) == None
    ensures sub.Some? ==>
              BelowLines(sub, at, e) == if Record(e.value, PlainEntries(e.value).value) then Some([Block(at, e.value, e.trail)])
              else if e.trail == "" then sub
              else Some(sub.value[..|sub.value| - 1] + [Trailed(sub.value[|sub.value| - 1], e.trail)])
  {
    hide Record, PlainEntries;
  }

  // ----- what the lines mean

  /** A value behind its heads. */
  function Nest(heads: seq<Head>, value: Node): Node {
    if heads == [] then value else Pair(heads[0].key, heads[0].opt, heads[0].alias, Nest(heads[1..], value), "")
  }

  /** What a line says, at the path of the body it stands in. */
  function LineFacts(l: Line, path: seq<Step>): set<Fact> {
    match l
    case Text(heads, value, _) => ValueFacts(Nest(heads, value), path, true)
    case Block(heads, value, _) => ValueFacts(Nest(heads, value), path, true)
    case _ => {}
  }

  function LinesFacts(lines: seq<Line>, path: seq<Step>): set<Fact> {
    if lines == [] then {} else LineFacts(lines[0], path) + LinesFacts(lines[1..], path)
  }

  lemma {:induction false} LinesAppend(a: seq<Line>, b: seq<Line>, path: seq<Step>)
    ensures LinesFacts(a + b, path) == LinesFacts(a, path) + LinesFacts(b, path)
  {
    hide LineFacts;
    if a == [] {
      assert a + b == b;
    } else {
      assert (a + b)[0] == a[0] && (a + b)[1..] == a[1..] + b;
      LinesAppend(a[1..], b, path);
    }
  }

  lemma LinesOne(l: Line, path: seq<Step>)
    ensures LinesFacts([l], path) == LineFacts(l, path)
  {
    hide LineFacts;
    assert [l][1..] == [];
  }

  function Below(heads: seq<Head>, path: seq<Step>): seq<Step> {
    if heads == [] then path else Below(heads[1..], path + [Key(heads[0].key)])
  }

  /** What heads say in front of their value. */
  function HeadsFacts(heads: seq<Head>, path: seq<Step>): set<Fact> {
    if heads == [] then {}
    else
      var h, at := heads[0], path + [Key(heads[0].key)];
      {Fact(path, IsMap), Fact(at, if h.alias then Declared else Field)} + (if h.opt then {} else {Fact(at, Required)})
        + HeadsFacts(heads[1..], at)
  }

  lemma {:induction false} NestFacts(heads: seq<Head>, value: Node, path: seq<Step>)
    ensures ValueFacts(Nest(heads, value), path, true) == HeadsFacts(heads, path) + ValueFacts(value, Below(heads, path), true)
  {
    if heads != [] { NestFacts(heads[1..], value, path + [Key(heads[0].key)]); }
  }

  lemma {:induction false} HeadsPush(heads: seq<Head>, h: Head, path: seq<Step>)
    ensures Below(heads + [h], path) == Below(heads, path) + [Key(h.key)]
    ensures HeadsFacts(heads + [h], path) == HeadsFacts(heads, path) + HeadsFacts([h], Below(heads, path))
  {
    if heads == [] {
      assert heads + [h] == [h] && [h][1..] == [];
    } else {
      assert (heads + [h])[0] == heads[0] && (heads + [h])[1..] == heads[1..] + [h];
      HeadsPush(heads[1..], h, path + [Key(heads[0].key)]);
    }
  }

  lemma ChainFacts(v: Node, path: seq<Step>)
    ensures ValueFacts(Chain(v), path, true) == ValueFacts(v, path, true)
  {
    if v.Map? && |v.body| == 1 {
      assert v.body == [v.body[0]];
      FactsOne(v.body[0], path, true);
    }
  }

  /** What a map behind its heads says of its being there and of one entry. */
  function Under(heads: seq<Head>, path: seq<Step>): set<Fact> {
    HeadsFacts(heads, path) + {Fact(Below(heads, path), IsMap)}
  }

  lemma PairUnder(e: Node, heads: seq<Head>, path: seq<Step>)
    requires e.Pair?
    ensures HeadsFacts(heads + [HeadOf(e)], path) + ValueFacts(e.value, Below(heads + [HeadOf(e)], path), true)
         == Under(heads, path) + EntryFacts(e, Below(heads, path), true)
  {
    hide ValueFacts;
    HeadsPush(heads, HeadOf(e), path);
    assert [HeadOf(e)][1..] == [];
  }

  lemma TrailedFacts(l: Line, trail: string, path: seq<Step>)
    ensures LineFacts(Trailed(l, trail), path) == LineFacts(l, path)
  {
  }

  lemma LastTrailed(lines: seq<Line>, trail: string, path: seq<Step>)
    requires lines != []
    ensures LinesFacts(lines[..|lines| - 1] + [Trailed(lines[|lines| - 1], trail)], path) == LinesFacts(lines, path)
  {
    var n := |lines| - 1;
    LinesAppend(lines[..n], [lines[n]], path);
    LinesAppend(lines[..n], [Trailed(lines[n], trail)], path);
    LinesOne(lines[n], path);
    LinesOne(Trailed(lines[n], trail), path);
    TrailedFacts(lines[n], trail, path);
    assert lines == lines[..n] + [lines[n]];
  }

  // ----- the statements a reader meets

  /** A statement whose map is written below it: not on its line, and not as a record's block. */
  predicate Repeated(fits: Fits, e: Node, heads: seq<Head>) {
    && e.Pair? && !(Inline(Chain(e.value)) && fits(heads + [HeadOf(e)], Chain(e.value)))
    && PlainEntries(e.value).Some? && !Record(e.value, PlainEntries(e.value).value)
  }

  function Sub(e: Node): (sub: seq<Node>)
    requires e.Pair? && PlainEntries(e.value).Some?
    ensures Sizes(sub) < Size(e)
  {
    PlainSize(e.value);
    PlainEntries(e.value).value
  }

  predicate AnyStatement(entries: seq<Node>) {
    entries != [] && (!Filler(entries[0]) || AnyStatement(entries[1..]))
  }

  /** An entry as its lines say it: a map written below without a statement is not said. */
  function HeardIn(fits: Fits, e: Node, heads: seq<Head>): seq<Node>
    decreases Size(e), 0
  {
    if Filler(e) then []
    else if Repeated(fits, e, heads) then
      var sub := Heard(fits, Sub(e), heads + [HeadOf(e)]);
      if sub == [] then [] else [WithValue(e, Map(sub, ""))]
    else [e]
  }

  function Heard(fits: Fits, entries: seq<Node>, heads: seq<Head>): seq<Node>
    decreases Sizes(entries), 1
  {
    if entries == [] then []
    else
      MembersBelow(entries);
      HeardIn(fits, entries[0], heads) + Heard(fits, entries[1..], heads)
  }

  /** What a body behind its heads says, where it says anything. */
  function Said(heard: seq<Node>, heads: seq<Head>, path: seq<Step>): set<Fact> {
    if heard == [] then {} else Under(heads, path) + BodyFacts(heard, Below(heads, path), true)
  }

  lemma SaidAppend(a: seq<Node>, b: seq<Node>, heads: seq<Head>, path: seq<Step>)
    ensures Said(a + b, heads, path) == Said(a, heads, path) + Said(b, heads, path)
  {
    hide BodyFacts, Under;
    FactsAppend(a, b, Below(heads, path), true);
    assert a == [] ==> a + b == b;
    assert b == [] ==> a + b == a;
  }

  lemma SaidOne(e: Node, heads: seq<Head>, path: seq<Step>)
    ensures Said([e], heads, path) == Under(heads, path) + EntryFacts(e, Below(heads, path), true)
  {
    hide EntryFacts, Under;
    FactsOne(e, Below(heads, path), true);
  }

  /** One entry's lines say the entry as heard. */
  lemma {:induction false} EntryMeans(fits: Fits, e: Node, heads: seq<Head>, path: seq<Step>)
    requires EntryLines(fits, e, heads).Some?
    ensures LinesFacts(EntryLines(fits, e, heads).value, path) == Said(HeardIn(fits, e, heads), heads, path)
    decreases Size(e), 0
  {
    hide ValueFacts, Inline, Record, LinesFacts, HeadsFacts, Nest, Below, Repeat, Chain, EntryFacts, BodyFacts, Heard, Said;
    SaidNone(heads, path);
    match e
    case Blank => LinesOne(BlankLine, path);
    case Comment(text) => LinesOne(CommentLine(text), path);
    case Spread(v, trail) =>
      var alone := Map([Spread(v, "")], "");
      LinesOne(Text(heads, alone, trail), path);
      NestFacts(heads, alone, path);
      SpreadAlone(e, Below(heads, path));
      SaidOne(e, heads, path);
    case Pair(_, _, _, v, trail) =>
      var at := heads + [HeadOf(e)];
      PairUnder(e, heads, path);
      SaidOne(e, heads, path);
      if Inline(Chain(v)) && fits(at, Chain(v)) {
        LinesOne(Text(at, Chain(v), trail), path);
        NestFacts(at, Chain(v), path);
        ChainFacts(v, Below(at, path));
      } else if Record(v, PlainEntries(v).value) {
        LinesOne(Block(at, v, trail), path);
        NestFacts(at, v, path);
      } else {
        var lines := Repeat(fits, Sub(e), at).value;
        RepeatHeard(fits, Sub(e), at, path);
        if trail != "" { LastTrailed(lines, trail, path); }
        SaidNone(at, path);
        SaidBelow(e, Heard(fits, Sub(e), at), heads, path);
      }
    case _ =>
  }

  lemma SaidNone(heads: seq<Head>, path: seq<Step>)
    ensures Said([], heads, path) == {}
  {
  }

  /** A map said behind its own head is the statement said. */
  lemma SaidBelow(e: Node, sub: seq<Node>, heads: seq<Head>, path: seq<Step>)
    requires e.Pair?
    ensures sub != [] ==> Said(sub, heads + [HeadOf(e)], path) == Said([WithValue(e, Map(sub, ""))], heads, path)
  {
    hide Below, HeadsFacts, EntryFacts, BodyFacts;
    if sub != [] {
      var e' := WithValue(e, Map(sub, ""));
      PairUnder(e', heads, path);
      MapFacts(sub, "", Below(heads + [HeadOf(e')], path), true);
      SaidOne(e', heads, path);
    }
  }

  lemma SpreadAlone(e: Node, path: seq<Step>)
    requires e.Spread?
    ensures ValueFacts(Map([Spread(e.value, "")], ""), path, true) == {Fact(path, IsMap)} + EntryFacts(e, path, true)
  {
    FactsOne(Spread(e.value, ""), path, true);
  }

  lemma {:induction false} LinesMean(fits: Fits, entries: seq<Node>, heads: seq<Head>, path: seq<Step>)
    requires LinesFrom(fits, entries, heads).Some?
    ensures LinesFacts(LinesFrom(fits, entries, heads).value, path) == Said(Heard(fits, entries, heads), heads, path)
    decreases Sizes(entries), 1
  {
    hide EntryLines, LineFacts, Said, HeardIn;
    SaidNone(heads, path);
    if entries != [] {
      MembersBelow(entries);
      var e := entries[0];
      EntryMeans(fits, e, heads, path);
      LinesMean(fits, entries[1..], heads, path);
      LinesAppend(EntryLines(fits, e, heads).value, LinesFrom(fits, entries[1..], heads).value, path);
      SaidAppend(HeardIn(fits, e, heads), Heard(fits, entries[1..], heads), heads, path);
    }
  }

  /** Whatever the map, its lines say it as heard: without the maps below that have no statement. */
  lemma {:induction false} RepeatHeard(fits: Fits, entries: seq<Node>, heads: seq<Head>, path: seq<Step>)
    requires Repeat(fits, entries, heads).Some?
    ensures LinesFacts(Repeat(fits, entries, heads).value, path) == Said(Heard(fits, entries, heads), heads, path)
    decreases Sizes(entries), 2
  {
    hide LinesFrom, LinesFacts, Said, Heard;
    LinesMean(fits, entries, heads, path);
  }

  // ----- when that is all the map says

  /** What an entry says that its lines do not: a map written below with nothing to be heard in it,
      and what is not heard further below. */
  function UnsaidIn(fits: Fits, e: Node, heads: seq<Head>, path: seq<Step>): set<Fact>
    decreases Size(e), 0
  {
    if Filler(e) || !Repeated(fits, e, heads) then {}
    else
      var at := heads + [HeadOf(e)];
      if Heard(fits, Sub(e), at) == [] then EntryFacts(e, path, true) else Unsaid(fits, Sub(e), at, At(e, path))
  }

  function Unsaid(fits: Fits, entries: seq<Node>, heads: seq<Head>, path: seq<Step>): set<Fact>
    decreases Sizes(entries), 1
  {
    if entries == [] then {}
    else
      MembersBelow(entries);
      UnsaidIn(fits, entries[0], heads, path) + Unsaid(fits, entries[1..], heads, path)
  }

  lemma RepeatedIs(fits: Fits, e: Node, heads: seq<Head>)
    requires Repeated(fits, e, heads)
    ensures e.Pair? && PlainEntries(e.value).Some?
  {
  }

  /** A statement and its map with other entries. */
  lemma SubFacts(e: Node, sub: seq<Node>, rest: set<Fact>, path: seq<Step>)
    requires e.Pair? && PlainEntries(e.value).Some?
    requires BodyFacts(Sub(e), At(e, path), true) == BodyFacts(sub, At(e, path), true) + rest
    ensures EntryFacts(e, path, true) == EntryFacts(WithValue(e, Map(sub, "")), path, true) + rest
  {
    hide BodyFacts, ValueFacts;
    PlainFacts(e.value, At(e, path), true);
    MapFacts(sub, "", At(e, path), true);
    PlainDeep(e, path, true);
    PlainDeep(WithValue(e, Map(sub, "")), path, true);
  }

  lemma {:induction false} EntryParts(fits: Fits, e: Node, heads: seq<Head>, path: seq<Step>)
    ensures EntryFacts(e, path, true) == BodyFacts(HeardIn(fits, e, heads), path, true) + UnsaidIn(fits, e, heads, path)
    decreases Size(e), 0
  {
    hide BodyFacts, EntryFacts, Repeated, Heard, Unsaid;
    NoFacts(path);
    FactsOne(e, path, true);
    if Filler(e) {
      FillerFacts(e, path, true);
    } else if Repeated(fits, e, heads) {
      RepeatedIs(fits, e, heads);
      var at := heads + [HeadOf(e)];
      var sub := Heard(fits, Sub(e), at);
      if sub != [] {
        HeardParts(fits, Sub(e), at, At(e, path));
        SubFacts(e, sub, Unsaid(fits, Sub(e), at, At(e, path)), path);
        FactsOne(WithValue(e, Map(sub, "")), path, true);
      }
    }
  }

  /** A body says what is heard of it and what is not. */
  lemma {:induction false} HeardParts(fits: Fits, entries: seq<Node>, heads: seq<Head>, path: seq<Step>)
    ensures BodyFacts(entries, path, true) == BodyFacts(Heard(fits, entries, heads), path, true) + Unsaid(fits, entries, heads, path)
    decreases Sizes(entries), 1
  {
    hide EntryFacts, HeardIn, UnsaidIn;
    if entries != [] {
      MembersBelow(entries);
      EntryParts(fits, entries[0], heads, path);
      HeardParts(fits, entries[1..], heads, path);
      FactsAppend(HeardIn(fits, entries[0], heads), Heard(fits, entries[1..], heads), path, true);
    }
  }

  // ----- what heads say is said above

  ghost predicate Longer(facts: set<Fact>, n: nat) {
    forall f :: f in facts ==> n < |f.path|
  }

  lemma LongerMore(facts: set<Fact>, m: nat, n: nat)
    requires Longer(facts, m) && n <= m
    ensures Longer(facts, n)
  {
  }

  lemma LongerBoth(a: set<Fact>, b: set<Fact>, n: nat)
    requires Longer(a, n) && Longer(b, n)
    ensures Longer(a + b, n)
  {
  }

  /** Facts as far below as a path, but no separator at the path. */
  ghost predicate From(facts: set<Fact>, n: nat) {
    forall f :: f in facts ==> n <= |f.path| && (f.says.Field? || f.says.Declared? ==> n < |f.path|)
  }

  lemma FromLonger(facts: set<Fact>, m: nat, n: nat)
    requires From(facts, m) && n < m
    ensures Longer(facts, n)
  {
  }

  lemma FromBoth(a: set<Fact>, b: set<Fact>, n: nat)
    requires From(a, n) && From(b, n)
    ensures From(a + b, n)
  {
  }

  lemma LongerFrom(facts: set<Fact>, n: nat)
    requires Longer(facts, n)
    ensures From(facts, n)
  {
  }

  lemma {:induction false} EntryFrom(e: Node, path: seq<Step>)
    ensures From(EntryFacts(e, path, true), |path|) && (e.Pair? ==> Longer(EntryFacts(e, path, true), |path|))
    decreases e, 1
  {
    hide From, Longer, ValueFacts;
    if e.Pair? {
      ValueFrom(e.value, At(e, path));
      FromLonger(ValueFacts(e.value, At(e, path), true), |path| + 1, |path|);
      HeadLonger(e, path);
      PlainDeep(e, path, true);
      LongerBoth({SepFact(e, path, true)} + (if e.opt then {} else {Fact(At(e, path), Required)}), ValueFacts(e.value, At(e, path), true), |path|);
      LongerFrom(EntryFacts(e, path, true), |path|);
    } else if e.Spread? {
      ValueFrom(e.value, path + [Every]);
      FromLonger(ValueFacts(e.value, path + [Every], true), |path| + 1, |path|);
      LongerFrom(ValueFacts(e.value, path + [Every], true), |path|);
    } else {
      BareFrom(e, path);
    }
  }

  lemma BareFrom(e: Node, path: seq<Step>)
    requires !e.Pair? && !e.Spread?
    ensures From(EntryFacts(e, path, true), |path|)
  {
  }

  lemma HeadLonger(e: Node, path: seq<Step>)
    requires e.Pair?
    ensures Longer({SepFact(e, path, true)} + (if e.opt then {} else {Fact(At(e, path), Required)}), |path|)
  {
  }

  lemma {:induction false} ValueFrom(v: Node, path: seq<Step>)
    ensures From(ValueFacts(v, path, true), |path|)
    decreases v, 2
  {
    hide EntryFacts, BodyFacts;
    if v.Pair? { EntryFrom(v, path); }
    if v.Map? { BodyFrom(v.body, path); }
  }

  lemma {:induction false} BodyFrom(body: seq<Node>, path: seq<Step>)
    ensures From(BodyFacts(body, path, true), |path|)
    decreases body, 0
  {
    hide EntryFacts;
    if body != [] {
      EntryFrom(body[0], path);
      BodyFrom(body[1..], path);
    }
  }

  lemma {:induction false} UnsaidInLonger(fits: Fits, e: Node, heads: seq<Head>, path: seq<Step>)
    ensures Longer(UnsaidIn(fits, e, heads, path), |path|)
    decreases Size(e), 0
  {
    hide Repeated, Heard, Unsaid, EntryFacts;
    if !Filler(e) && Repeated(fits, e, heads) {
      RepeatedIs(fits, e, heads);
      EntryFrom(e, path);
      UnsaidLonger(fits, Sub(e), heads + [HeadOf(e)], At(e, path));
    }
  }

  lemma {:induction false} UnsaidLonger(fits: Fits, entries: seq<Node>, heads: seq<Head>, path: seq<Step>)
    ensures Longer(Unsaid(fits, entries, heads, path), |path|)
    decreases Sizes(entries), 1
  {
    hide UnsaidIn;
    if entries != [] {
      MembersBelow(entries);
      UnsaidInLonger(fits, entries[0], heads, path);
      UnsaidLonger(fits, entries[1..], heads, path);
    }
  }

  lemma {:induction false} HeadsShort(heads: seq<Head>, path: seq<Step>)
    ensures |path| <= |Below(heads, path)| && forall f :: f in HeadsFacts(heads, path) ==> |f.path| <= |Below(heads, path)|
  {
    if heads != [] { HeadsShort(heads[1..], path + [Key(heads[0].key)]); }
  }

  /** Of facts further below, what heads say in front says nothing. */
  lemma UnderApart(facts: set<Fact>, heads: seq<Head>, path: seq<Step>, more: set<Fact>)
    requires Longer(facts, |Below(heads, path)|)
    ensures facts <= Under(heads, path) + more <==> facts <= more
  {
    hide HeadsFacts, Below;
    HeadsShort(heads, path);
    assert forall f :: f in facts ==> f !in Under(heads, path);
  }

  /** Lines that say what is heard say all a body says, and what else is missing, exactly where something
      is heard and what is missing is said by it. */
  lemma HeardAll(heard: seq<Node>, missing: set<Fact>, heads: seq<Head>, path: seq<Step>)
    requires Longer(missing, |Below(heads, path)|)
    ensures Said(heard, heads, path) == Under(heads, path) + BodyFacts(heard, Below(heads, path), true) + missing
            <==> heard != [] && missing <= BodyFacts(heard, Below(heads, path), true)
  {
    hide BodyFacts, Below, HeadsFacts;
    UnderApart(missing, heads, path, BodyFacts(heard, Below(heads, path), true));
    assert Fact(Below(heads, path), IsMap) in Under(heads, path);
  }

  /** The lines a map is repeated into say, read back each with its heads, what the map does, exactly where
      something is heard of it and says all that is not. */
  lemma RepeatMeans(fits: Fits, entries: seq<Node>, heads: seq<Head>, path: seq<Step>)
    requires Repeat(fits, entries, heads).Some?
    ensures LinesFacts(Repeat(fits, entries, heads).value, path)
         == HeadsFacts(heads, path) + {Fact(Below(heads, path), IsMap)} + BodyFacts(entries, Below(heads, path), true)
         <==> var heard, at := Heard(fits, entries, heads), Below(heads, path);
              heard != [] && Unsaid(fits, entries, heads, at) <= BodyFacts(heard, at, true)
  {
    hide Repeat, LinesFacts, HeadsFacts, BodyFacts, Heard, Unsaid, Said, Below;
    var at := Below(heads, path);
    RepeatHeard(fits, entries, heads, path);
    HeardParts(fits, entries, heads, at);
    UnsaidLonger(fits, entries, heads, at);
    HeardAll(Heard(fits, entries, heads), Unsaid(fits, entries, heads, at), heads, path);
  }

  /** ... that is, what the statement itself does. */
  lemma StatementRepeats(fits: Fits, p: Node, path: seq<Step>)
    requires p.Pair? && PlainEntries(p.value).Some? && Repeat(fits, Sub(p), [HeadOf(p)]).Some?
    ensures LinesFacts(Repeat(fits, Sub(p), [HeadOf(p)]).value, path) == {Fact(path, IsMap)} + EntryFacts(p, path, true)
            <==> var heard := Heard(fits, Sub(p), [HeadOf(p)]);
                 heard != [] && Unsaid(fits, Sub(p), [HeadOf(p)], At(p, path)) <= BodyFacts(heard, At(p, path), true)
  {
    hide Repeat, LinesFacts, BodyFacts, PlainEntries, ValueFacts, Heard, Unsaid;
    RepeatMeans(fits, Sub(p), [HeadOf(p)], path);
    PlainFacts(p.value, path + [Key(p.key)], true);
    assert [HeadOf(p)][1..] == [];
  }

  // ----- where every map below has a statement

  /** Every map written below has a statement, and so below it. */
  predicate Spoken(fits: Fits, entries: seq<Node>, heads: seq<Head>)
    decreases Sizes(entries), 1
  {
    if entries == [] then true
    else
      MembersBelow(entries);
      SpokenIn(fits, entries[0], heads) && Spoken(fits, entries[1..], heads)
  }

  predicate SpokenIn(fits: Fits, e: Node, heads: seq<Head>)
    decreases Size(e), 0
  {
    Repeated(fits, e, heads) ==> AnyStatement(Sub(e)) && Spoken(fits, Sub(e), heads + [HeadOf(e)])
  }

  lemma {:induction false} SpokenEntry(fits: Fits, e: Node, heads: seq<Head>, path: seq<Step>)
    requires SpokenIn(fits, e, heads)
    ensures UnsaidIn(fits, e, heads, path) == {} && (HeardIn(fits, e, heads) == [] <==> Filler(e))
    decreases Size(e), 0
  {
    hide EntryFacts, Repeated, Spoken, Heard, Unsaid, AnyStatement;
    if !Filler(e) && Repeated(fits, e, heads) {
      RepeatedIs(fits, e, heads);
      SpokenAll(fits, Sub(e), heads + [HeadOf(e)], At(e, path));
    }
  }

  /** Then everything is heard. */
  lemma {:induction false} SpokenAll(fits: Fits, entries: seq<Node>, heads: seq<Head>, path: seq<Step>)
    requires Spoken(fits, entries, heads)
    ensures Unsaid(fits, entries, heads, path) == {} && (Heard(fits, entries, heads) == [] <==> !AnyStatement(entries))
    decreases Sizes(entries), 1
  {
    hide HeardIn, UnsaidIn, SpokenIn;
    if entries != [] {
      MembersBelow(entries);
      SpokenEntry(fits, entries[0], heads, path);
      SpokenAll(fits, entries[1..], heads, path);
    }
  }

  /** ... and the lines mean the map exactly where it has a statement. */
  lemma SpokenMeans(fits: Fits, entries: seq<Node>, heads: seq<Head>, path: seq<Step>)
    requires Spoken(fits, entries, heads) && Repeat(fits, entries, heads).Some?
    ensures LinesFacts(Repeat(fits, entries, heads).value, path)
         == HeadsFacts(heads, path) + {Fact(Below(heads, path), IsMap)} + BodyFacts(entries, Below(heads, path), true)
         <==> AnyStatement(entries)
  {
    hide Repeat, LinesFacts, HeadsFacts, BodyFacts, Spoken, AnyStatement, Heard, Unsaid, Below;
    RepeatMeans(fits, entries, heads, path);
    SpokenAll(fits, entries, heads, Below(heads, path));
  }

  // ----- what the lines hold

  function LineWritten(l: Line): string {
    match l
    case Text(_, value, trail) => Written(value) + Word(trail)
    case Block(_, value, trail) => Written(value) + Word(trail)
    case CommentLine(text) => Word(text)
    case BlankLine => ""
  }

  function LinesWritten(lines: seq<Line>): string {
    if lines == [] then "" else LineWritten(lines[0]) + LinesWritten(lines[1..])
  }

  lemma {:induction false} LinesWrittenAppend(a: seq<Line>, b: seq<Line>)
    ensures LinesWritten(a + b) == LinesWritten(a) + LinesWritten(b)
  {
    hide LineWritten;
    if a == [] {
      assert a + b == b;
    } else {
      assert (a + b)[0] == a[0] && (a + b)[1..] == a[1..] + b;
      LinesWrittenAppend(a[1..], b);
    }
  }

  lemma LinesWrittenOne(l: Line)
    ensures LinesWritten([l]) == LineWritten(l)
  {
    hide LineWritten;
    assert [l][1..] == [];
  }

  lemma ChainWritten(v: Node)
    ensures Written(Chain(v)) == Written(v)
  {
    if v.Map? && |v.body| == 1 {
      assert v.body == [v.body[0]];
      WrittenOne(v.body[0]);
    }
  }

  predicate Holds(l: Line) {
    l.Text? || l.Block?
  }

  lemma TrailedOne(l: Line, trail: string)
    requires Holds(l) && trail != ""
    ensures LineWritten(Trailed(l, trail)) == LineWritten(l) + Word(trail)
  {
    hide Written, Word;
    WordJoin(l.trail, trail);
    Assoc(Written(l.value), Word(l.trail), Word(trail));
  }

  lemma LastWritten(front: seq<Line>, l: Line)
    ensures LinesWritten(front + [l]) == LinesWritten(front) + LineWritten(l)
  {
    hide *;
    LinesWrittenAppend(front, [l]);
    LinesWrittenOne(l);
  }

  lemma FrontAndLast(lines: seq<Line>)
    requires lines != []
    ensures lines[..|lines| - 1] + [lines[|lines| - 1]] == lines
  {
  }

  lemma TrailedWritten(lines: seq<Line>, trail: string)
    requires lines != [] && Holds(lines[|lines| - 1]) && trail != ""
    ensures LinesWritten(lines[..|lines| - 1] + [Trailed(lines[|lines| - 1], trail)]) == LinesWritten(lines) + Word(trail)
  {
    hide *;
    var front, l := lines[..|lines| - 1], lines[|lines| - 1];
    TrailedOne(l, trail);
    LastWritten(front, l);
    LastWritten(front, Trailed(l, trail));
    FrontAndLast(lines);
    Assoc(LinesWritten(front), LineWritten(l), Word(trail));
  }

  lemma SpreadWritten(v: Node)
    ensures Written(Map([Spread(v, "")], "")) == Written(v)
  {
    WrittenOne(Spread(v, ""));
  }

  // ----- a comment behind a blank line

  /** The lines of a map end in a blank line. */
  predicate EndsBlank(fits: Fits, entries: seq<Node>, heads: seq<Head>)
    decreases Sizes(entries), 2
  {
    if entries == [] then false
    else
      LastSize(entries);
      LastBlank(fits, entries[|entries| - 1], heads)
  }

  predicate LastBlank(fits: Fits, e: Node, heads: seq<Head>)
    decreases Size(e), 0
  {
    e.Blank? || (Repeated(fits, e, heads) && EndsBlank(fits, Sub(e), heads + [HeadOf(e)]))
  }

  lemma LastSize(entries: seq<Node>)
    requires entries != []
    ensures Size(entries[|entries| - 1]) <= Sizes(entries)
  {
    var n := |entries| - 1;
    SizesLeft(entries, n);
    assert entries[n] == entries[n..][0];
  }

  /** A statement with a comment is written below, and its lines end in a blank line. */
  predicate Loses(fits: Fits, entries: seq<Node>, heads: seq<Head>)
    decreases Sizes(entries), 1
  {
    if entries == [] then false
    else
      MembersBelow(entries);
      LosesIn(fits, entries[0], heads) || Loses(fits, entries[1..], heads)
  }

  predicate LosesIn(fits: Fits, e: Node, heads: seq<Head>)
    decreases Size(e), 0
  {
    && Repeated(fits, e, heads)
    && var at := heads + [HeadOf(e)];
       (e.trail != "" && EndsBlank(fits, Sub(e), at)) || Loses(fits, Sub(e), at)
  }

  /** What is written of what stood: all of it, or less. */
  ghost predicate Stands(written: string, whole: string, loses: bool) {
    if loses then |written| < |whole| else written == whole
  }

  lemma StandsAppend(a: string, a': string, la: bool, b: string, b': string, lb: bool)
    requires Stands(a, a', la) && Stands(b, b', lb)
    ensures Stands(a + b, a' + b', la || lb)
  {
  }

  lemma TrailedBlank(lines: seq<Line>, trail: string)
    requires lines != [] && lines[|lines| - 1].BlankLine?
    ensures LinesWritten(lines[..|lines| - 1] + [Trailed(lines[|lines| - 1], trail)]) == LinesWritten(lines)
  {
    assert lines[..|lines| - 1] + [lines[|lines| - 1]] == lines;
  }

  /** An entry's last line is blank where the entry ends so, and holds a value otherwise. */
  ghost predicate EndsAs(lines: seq<Line>, blank: bool) {
    lines != [] && if blank then lines[|lines| - 1].BlankLine? else Holds(lines[|lines| - 1])
  }

  lemma EndsTrailed(lines: seq<Line>, trail: string, blank: bool)
    requires EndsAs(lines, blank)
    ensures EndsAs(lines[..|lines| - 1] + [Trailed(lines[|lines| - 1], trail)], blank)
  {
  }

  /** The comment sunk behind the lines of a map stands, but behind a blank line. */
  lemma SunkStands(lines: seq<Line>, trail: string, blank: bool, whole: string, loses: bool)
    requires EndsAs(lines, blank) && trail != "" && Stands(LinesWritten(lines), whole, loses)
    ensures Stands(LinesWritten(lines[..|lines| - 1] + [Trailed(lines[|lines| - 1], trail)]), whole + Word(trail), loses || blank)
  {
    hide LinesWritten;
    if blank { TrailedBlank(lines, trail); } else { TrailedWritten(lines, trail); }
  }

  lemma {:induction false} EntryWritten(fits: Fits, e: Node, heads: seq<Head>)
    requires EntryLines(fits, e, heads).Some?
    ensures Stands(LinesWritten(EntryLines(fits, e, heads).value), Written(e), LosesIn(fits, e, heads))
    ensures !e.Comment? ==> EndsAs(EntryLines(fits, e, heads).value, LastBlank(fits, e, heads))
    decreases Size(e), 0
  {
    hide Inline, Record, LinesWritten, Repeat, Chain, Word, WrittenBody, EndsBlank, Loses, Stands;
    StandsWhole(Written(e));
    match e
    case Blank => LinesWrittenOne(BlankLine);
    case Comment(text) => LinesWrittenOne(CommentLine(text));
    case Spread(v, trail) =>
      SpreadWritten(v);
      LinesWrittenOne(Text(heads, Map([Spread(v, "")], ""), trail));
    case Pair(_, _, _, v, trail) =>
      var at := heads + [HeadOf(e)];
      if Inline(Chain(v)) && fits(at, Chain(v)) {
        LinesWrittenOne(Text(at, Chain(v), trail));
        ChainWritten(v);
      } else if Record(v, PlainEntries(v).value) {
        LinesWrittenOne(Block(at, v, trail));
      } else {
        var lines := Repeat(fits, Sub(e), at).value;
        RepeatStands(fits, Sub(e), at);
        PlainWritten(v);
        NoWord();
        if trail != "" {
          SunkStands(lines, trail, EndsBlank(fits, Sub(e), at), Written(v), Loses(fits, Sub(e), at));
          EndsTrailed(lines, trail, EndsBlank(fits, Sub(e), at));
        } else {
          assert Written(v) + "" == Written(v);
        }
      }
    case _ =>
  }

  lemma StandsWhole(whole: string)
    ensures Stands(whole, whole, false)
  {
  }

  lemma NoWord()
    ensures Word("") == ""
  {
  }

  lemma {:induction false} LinesHold(fits: Fits, entries: seq<Node>, heads: seq<Head>)
    requires LinesFrom(fits, entries, heads).Some?
    ensures Stands(LinesWritten(LinesFrom(fits, entries, heads).value), WrittenBody(entries), Loses(fits, entries, heads))
    ensures entries != [] && !entries[|entries| - 1].Comment? ==>
              EndsAs(LinesFrom(fits, entries, heads).value, LastBlank(fits, entries[|entries| - 1], heads))
    decreases Sizes(entries), 1
  {
    hide EntryLines, LineWritten, LosesIn, LastBlank, Written, Holds, LinesWritten, WrittenBody, Stands;
    NoneWritten();
    StandsWhole("");
    if entries != [] {
      MembersBelow(entries);
      var e := entries[0];
      EntryWritten(fits, e, heads);
      LinesHold(fits, entries[1..], heads);
      WrittenStep(entries);
      var here, rest := EntryLines(fits, e, heads).value, LinesFrom(fits, entries[1..], heads).value;
      LinesWrittenAppend(here, rest);
      StandsAppend(LinesWritten(here), Written(e), LosesIn(fits, e, heads),
                   LinesWritten(rest), WrittenBody(entries[1..]), Loses(fits, entries[1..], heads));
      LastOf(entries);
      if rest == [] { assert here + rest == here; }
    }
  }

  lemma NoneWritten()
    ensures LinesWritten([]) == "" && WrittenBody([]) == ""
  {
  }

  lemma LastOf(entries: seq<Node>)
    requires entries != []
    ensures entries[|entries| - 1] == if entries[1..] == [] then entries[0] else entries[1..][|entries[1..]| - 1]
  {
  }

  lemma {:induction false} RepeatStands(fits: Fits, entries: seq<Node>, heads: seq<Head>)
    requires Repeat(fits, entries, heads).Some?
    ensures Stands(LinesWritten(Repeat(fits, entries, heads).value), WrittenBody(entries), Loses(fits, entries, heads))
    ensures EndsAs(Repeat(fits, entries, heads).value, EndsBlank(fits, entries, heads))
    decreases Sizes(entries), 2
  {
    hide LinesFrom, LinesWritten, WrittenBody, Holds, Stands, Loses, LastBlank;
    LinesHold(fits, entries, heads);
  }

  /** Every value and comment of the map stands in its lines, in order, exactly where no statement
      with a comment is written below in lines that end blank; there the comment is gone. */
  lemma RepeatWritten(fits: Fits, entries: seq<Node>, heads: seq<Head>)
    requires Repeat(fits, entries, heads).Some?
    ensures LinesWritten(Repeat(fits, entries, heads).value) == WrittenBody(entries) <==> !Loses(fits, entries, heads)
  {
    hide Repeat, LinesWritten, WrittenBody, Loses;
    RepeatStands(fits, entries, heads);
  }

  /** A map without a statement, which two empty statements of one key with a blank line between
      merge into: it is repeated into no statement at all.  The formatter's check of the two
      spellings is what stops it. */
  lemma BlankRepeats(fits: Fits, key: string)
    ensures var empty := Pair(key, false, false, Map([], ""), "");
            var joined := Pair(key, false, false, Map([Blank], ""), "");
            Merged([empty, Blank, empty]) == [joined] && Repeat(fits, [Blank], [HeadOf(joined)]) == Some([BlankLine])
            && LinesFacts([BlankLine], []) == {} && EntryFacts(joined, [], true) != {}
  {
    hide Members, Merged, FirstRun, RunFrom;
    var empty := Pair(key, false, false, Map([], ""), "");
    var body := [empty, Blank, empty];
    assert body[1..] == [Blank, empty] && [Blank, empty][1..] == [empty] && [empty][1..] == [];
    NoMembers(empty);
    FirstRunIs(body);
    RunStep(empty, [], [], [Blank, empty], false);
    var none: seq<Node> := [];
    assert none + [Blank] == [Blank] && none + [Blank] + none == [Blank];
    RunStep(empty, [], [Blank], [empty], false);
    RunStep(empty, [Blank], [], [], true);
    assert FirstRun(body) == Run([Blank], true, []);
    MergedStep(body);
    MergedStep([Blank]);
    MergedNone();
    assert [Blank][1..] == [];
    LinesOne(BlankLine, []);
    assert [BlankLine] + [] == [BlankLine];
    assert LinesFrom(fits, [Blank], [Head(key, false, false)]) == Some([BlankLine]) by { LinesNone(fits, [Head(key, false, false)]); }
    assert Fact([] + [Key(key)], Field) in EntryFacts(Pair(key, false, false, Map([Blank], ""), ""), [], true);
  }
}
