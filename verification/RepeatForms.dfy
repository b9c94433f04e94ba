/**
 Which lines a map is repeated into (go/format.go:637-733, 1223-1315): only values that fit on
 one line and have one, and blocks of fields alone.
 */
module RepeatForms {
  import opened Options
  import opened Statements
  import opened MergeRuns
  import opened MergeSettled
  import opened RepeatLines

  /** A part of a node, however deep. */
  ghost predicate PartOf(n: Node, p: Node)
    decreases n
  {
    n == p ||
    match n
    case Pair(_, _, _, v, _) => PartOf(v, p)
    case Spread(v, _) => PartOf(v, p)
    case Map(body, _) => exists i :: 0 <= i < |body| && PartOf(body[i], p)
    case _ => false
  }

  /** By itself it stands on one line: no comment, no blank line and no text of several. */
  predicate OnLine(p: Node) {
    match p
    case Pair(_, _, _, _, trail) => trail == ""
    case Spread(_, trail) => trail == ""
    case Map(_, open) => open == ""
    case Comment(_) => false
    case Blank => false
    case Include(_) => true
    case Value(_, oneLine) => oneLine
  }

  ghost predicate OneLine(n: Node) {
    forall p :: PartOf(n, p) ==> OnLine(p)
  }

  lemma OnePair(n: Node)
    requires n.Pair? || n.Spread?
    ensures OneLine(n) <==> n.trail == "" && OneLine(n.value)
  {
    assert PartOf(n, n);
    if OneLine(n) {
      forall p | PartOf(n.value, p) ensures OnLine(p) { assert PartOf(n, p); }
    }
  }

  lemma OneMap(body: seq<Node>, open: string)
    ensures OneLine(Map(body, open)) <==> open == "" && forall i :: 0 <= i < |body| ==> OneLine(body[i])
  {
    var n := Map(body, open);
    assert PartOf(n, n);
    if OneLine(n) {
      forall i, p | 0 <= i < |body| && PartOf(body[i], p) ensures OnLine(p) { assert PartOf(n, p); }
    }
  }

  /** A map of one pair is as good as the pair. */
  lemma OneChain(v: Node)
    ensures OneLine(Chain(v)) <==> OneLine(v)
  {
    hide OneLine;
    if v.Map? && |v.body| == 1 { OneMap(v.body, v.open); }
  }

  lemma {:induction false} BodyIff(body: seq<Node>)
    ensures InlineAll(body) <==> forall i :: 0 <= i < |body| ==> OneLine(body[i])
    decreases Sizes(body), 2
  {
    hide OneLine, Inline;
    if body != [] {
      InlineIff(body[0]);
      BodyIff(body[1..]);
      assert forall i :: 0 <= i < |body[1..]| ==> body[1..][i] == body[i + 1];
      if forall i :: 0 <= i < |body[1..]| ==> OneLine(body[1..][i]) {
        forall i | 0 < i < |body| ensures OneLine(body[i]) { assert OneLine(body[1..][i - 1]); }
      }
    }
  }

  lemma OneOther(n: Node)
    requires !n.Pair? && !n.Spread? && !n.Map?
    ensures OneLine(n) <==> OnLine(n)
  {
    assert PartOf(n, n);
  }

  /** A node has a one-line spelling exactly where nothing in it, however deep, keeps it from one. */
  lemma {:induction false} InlineIff(n: Node)
    ensures Inline(n) <==> OneLine(n)
    decreases Size(n), 1
  {
    hide OneLine, Chain;
    match n
    case Pair(_, _, _, v, _) =>
      OnePair(n);
      OneChain(v);
      ChainSize(v);
      InlineIff(Chain(v));
    case Spread(v, _) =>
      OnePair(n);
      InlineIff(v);
    case Map(body, open) =>
      OneMap(body, open);
      BodyIff(body);
    case _ => OneOther(n);
  }

  /** Two fields or more, no spread, and no field that could be gone into. */
  ghost predicate FieldsOnly(v: Node) {
    && v.Map? && Open(v) && (forall e :: e in v.body ==> !e.Spread?)
    && (forall e :: e in v.body && e.Pair? ==> !Open(e.value))
    && exists i, j :: 0 <= i < j < |v.body| && v.body[i].Pair? && v.body[j].Pair?
  }

  /** A value on a line has one and fits it; a block is of fields alone. */
  ghost predicate Formed(fits: Fits, l: Line) {
    match l
    case Text(heads, value, _) => OneLine(value) && fits(heads, value)
    case Block(_, value, _) => FieldsOnly(value)
    case _ => true
  }

  ghost predicate AllFormed(fits: Fits, lines: seq<Line>) {
    forall i :: 0 <= i < |lines| ==> Formed(fits, lines[i])
  }

  lemma {:induction false} OnePairAt(body: seq<Node>)
    requires 0 < PlainPairs(body)
    ensures exists i :: 0 <= i < |body| && body[i].Pair?
  {
    if !body[0].Pair? {
      OnePairAt(body[1..]);
      var i :| 0 <= i < |body[1..]| && body[1..][i].Pair?;
      assert body[i + 1].Pair?;
    }
  }

  lemma {:induction false} TwoPairsAt(body: seq<Node>)
    requires 1 < PlainPairs(body)
    ensures exists i, j :: 0 <= i < j < |body| && body[i].Pair? && body[j].Pair?
  {
    if body[0].Pair? {
      OnePairAt(body[1..]);
      var j :| 0 <= j < |body[1..]| && body[1..][j].Pair?;
      assert body[0].Pair? && body[j + 1].Pair?;
    } else {
      TwoPairsAt(body[1..]);
      var i, j :| 0 <= i < j < |body[1..]| && body[1..][i].Pair? && body[1..][j].Pair?;
      assert body[i + 1].Pair? && body[j + 1].Pair?;
    }
  }

  lemma {:induction false} PairsMany(body: seq<Node>, i: nat, j: nat)
    requires i < j < |body| && body[i].Pair? && body[j].Pair?
    ensures 1 < PlainPairs(body)
  {
    if i == 0 { PairsOne(body[1..], j - 1); } else { PairsMany(body[1..], i - 1, j - 1); }
  }

  lemma {:induction false} PairsOne(body: seq<Node>, i: nat)
    requires i < |body| && body[i].Pair?
    ensures 0 < PlainPairs(body)
  {
    if 0 < i { PairsOne(body[1..], i - 1); }
  }

  lemma {:induction false} NoSpreads(body: seq<Node>)
    ensures Spreads(body) == 0 <==> forall e :: e in body ==> !e.Spread?
  {
    if body != [] {
      NoSpreads(body[1..]);
      assert forall e :: e in body <==> e == body[0] || e in body[1..];
    }
  }

  lemma PlainIs(v: Node)
    ensures PlainEntries(v).Some? <==> Open(v)
    ensures v.Map? && Open(v) ==> PlainEntries(v).value == v.body
  {
  }

  /** A map is kept as a block exactly where it is of fields alone. */
  lemma RecordIff(v: Node)
    requires PlainEntries(v).Some?
    ensures Record(v, PlainEntries(v).value) <==> FieldsOnly(v)
  {
    hide PlainEntries, Open;
    PlainIs(v);
    if v.Map? {
      NoSpreads(v.body);
      forall e | e in v.body && e.Pair? ensures PlainEntries(e.value).None? <==> !Open(e.value) { PlainIs(e.value); }
      if 1 < PlainPairs(v.body) { TwoPairsAt(v.body); }
      if i, j :| 0 <= i < j < |v.body| && v.body[i].Pair? && v.body[j].Pair? { PairsMany(v.body, i, j); }
    }
  }

  lemma TrailedFormed(fits: Fits, l: Line, trail: string)
    requires Formed(fits, l)
    ensures Formed(fits, Trailed(l, trail))
  {
    hide OneLine, FieldsOnly;
  }

  /** Every line is one of these. */
  lemma {:induction false} RepeatFormed(fits: Fits, entries: seq<Node>, heads: seq<Head>)
    ensures Repeat(fits, entries, heads).Some? ==> AllFormed(fits, Repeat(fits, entries, heads).value)
    decreases Sizes(entries), 2
  {
    hide LinesFrom;
    LinesFormed(fits, entries, heads);
  }

  lemma {:induction false} LinesFormed(fits: Fits, entries: seq<Node>, heads: seq<Head>)
    ensures LinesFrom(fits, entries, heads).Some? ==> AllFormed(fits, LinesFrom(fits, entries, heads).value)
    decreases Sizes(entries), 1
  {
    hide EntryLines, Formed;
    if entries != [] {
      MembersBelow(entries);
      SizesLeft(entries, 0);
      assert entries[0..] == entries;
      EntryFormed(fits, entries[0], heads);
      LinesFormed(fits, entries[1..], heads);
    }
  }

  lemma {:induction false} EntryFormed(fits: Fits, e: Node, heads: seq<Head>)
    ensures EntryLines(fits, e, heads).Some? ==> AllFormed(fits, EntryLines(fits, e, heads).value)
    decreases Size(e), 0
  {
    hide Inline, OneLine, Record, PlainEntries, Chain, Repeat, FieldsOnly;
    match e
    case Pair(_, _, _, v, trail) =>
      var at := heads + [HeadOf(e)];
      PairLines(fits, e, heads);
      InlineIff(Chain(v));
      if PlainEntries(v).Some? {
        MembersSmaller(e);
        RepeatFormed(fits, PlainEntries(v).value, at);
        RecordIff(v);
        BelowFormed(fits, Repeat(fits, PlainEntries(v).value, at), at, e);
      }
    case Spread(v, _) =>
      InlineIff(v);
      SpreadOne(v);
    case _ =>
  }

  lemma SpreadOne(v: Node)
    ensures OneLine(Map([Spread(v, "")], "")) <==> OneLine(v)
  {
    hide OneLine;
    OneMap([Spread(v, "")], "");
    OnePair(Spread(v, ""));
    assert [Spread(v, "")][0] == Spread(v, "");
  }

  lemma BelowFormed(fits: Fits, sub: Option<seq<Line>>, at: seq<Head>, e: Node)
    requires e.Pair? && PlainEntries(e.value).Some? && (sub.Some? ==> sub.value != [] && AllFormed(fits, sub.value))
    requires Record(e.value, PlainEntries(e.value).value) <==> FieldsOnly(e.value)
    ensures BelowLines(sub, at, e).Some? ==> AllFormed(fits, BelowLines(sub, at, e).value)
  {
    hide OneLine, Record, PlainEntries, FieldsOnly, Trailed;
    if sub.Some? {
      var last := sub.value[|sub.value| - 1];
      TrailedFormed(fits, last, e.trail);
    }
  }

  /** A statement whose value fits one line and has one is that line; one of any other value is not. */
  lemma FitsAlone(fits: Fits, e: Node, heads: seq<Head>)
    requires e.Pair?
    ensures var at := heads + [HeadOf(e)];
            EntryLines(fits, e, heads) == Some([Text(at, Chain(e.value), e.trail)]) <==> OneLine(e.value) && fits(at, Chain(e.value))
  {
    hide Inline, OneLine, Chain, Formed;
    InlineIff(Chain(e.value));
    OneChain(e.value);
    PairLines(fits, e, heads);
    EntryFormed(fits, e, heads);
    var at := heads + [HeadOf(e)];
    if EntryLines(fits, e, heads) == Some([Text(at, Chain(e.value), e.trail)]) {
      var l := EntryLines(fits, e, heads).value[0];
      FormedText(fits, l);
    }
  }

  lemma FormedText(fits: Fits, l: Line)
    requires Formed(fits, l) && l.Text?
    ensures OneLine(l.value) && fits(l.heads, l.value)
  {
  }
}
