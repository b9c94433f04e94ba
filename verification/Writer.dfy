/**
 The importer's meets and disjunctions, built and written (iand, ior, iwriteLevel and iwriteChain,
 go/jsonschema_import.go:402-451 and 506-633): a long chain is written as nested groups, and what is
 written reads back as the same meet or disjunction.
 */
module Writer {
  import opened Branches

  const IMPORT_GROUP: nat := 32

  /** A part written whole, or what is written between parts. */
  datatype Tok = Part(e: Expr) | Open | Close | Amp | Bar

  // ----- the level of a chain's top

  function Span(level: nat): (n: nat)
    ensures 0 < n
  {
    if level == 0 then 1 else IMPORT_GROUP * Span(level - 1)
  }

  lemma {:induction false} SpanGrows(level: nat)
    ensures level < Span(level)
  {
    if 0 < level { SpanGrows(level - 1); }
  }

  /** The least level whose groups hold n members. */
  ghost predicate IsLevel(n: nat, level: nat) {
    n <= IMPORT_GROUP * Span(level) && (0 < level ==> Span(level) < n)
  }

  function LevelFrom(n: nat, level: nat): nat
    decreases n - level
  {
    SpanGrows(level);
    if IMPORT_GROUP * Span(level) < n then LevelFrom(n, level + 1) else level
  }

  /** iwriteLevel. */
  function Level(n: nat): nat {
    LevelFrom(n, 0)
  }

  lemma {:induction false} LevelFromIs(n: nat, level: nat)
    requires 0 < level ==> Span(level) < n
    ensures IsLevel(n, LevelFrom(n, level))
    decreases n - level
  {
    SpanGrows(level);
    if IMPORT_GROUP * Span(level) < n { LevelFromIs(n, level + 1); }
  }

  lemma LevelUnique(n: nat, a: nat, b: nat)
    requires IsLevel(n, a) && IsLevel(n, b)
    ensures a == b
  {
    if a < b { SpanUp(a + 1, b); }
    if b < a { SpanUp(b + 1, a); }
  }

  lemma {:induction false} SpanUp(a: nat, b: nat)
    requires a <= b
    ensures Span(a) <= Span(b)
    decreases b
  {
    if a < b { SpanUp(a, b - 1); }
  }

  method WriteLevel(n: nat) returns (level: nat)
    ensures IsLevel(n, level) && level == Level(n)
  {
    level := 0;
    var span: nat := 1;
    while IMPORT_GROUP * span < n
      invariant span == Span(level) && (0 < level ==> span < n)
      decreases n - span
    {
      level := level + 1;
      span := span * IMPORT_GROUP;
    }
    LevelFromIs(n, 0);
    LevelUnique(n, level, Level(n));
  }

  // ----- writing

  function Between(and: bool): Tok {
    if and then Amp else Bar
  }

  /** What iwrite writes. */
  function Written(e: Expr): seq<Tok>
    decreases e, 0
  {
    match e
    case And(items) => Chain(items, Level(|items|), true)
    case Or(items) => Chain(items, Level(|items|), false)
    case _ => [Part(e)]
  }

  /** A member of a chain: a disjunction in a meet stands in brackets. */
  function MemberText(e: Expr, and: bool): seq<Tok>
    decreases e, 1
  {
    if and && e.Or? then [Open] + Written(e) + [Close] else Written(e)
  }

  /** iwriteChain: groups of Span(level) members each. */
  function Chain(items: seq<Expr>, level: nat, and: bool): seq<Tok>
    decreases items, level, 1
  {
    if items == [] then []
    else if |items| <= Span(level) then Group(items, level, and)
    else Group(items[..Span(level)], level, and) + [Between(and)] + Chain(items[Span(level)..], level, and)
  }

  function Group(items: seq<Expr>, level: nat, and: bool): seq<Tok>
    requires 0 < |items| <= Span(level)
    decreases items, level, 0
  {
    if 0 < level then [Open] + Chain(items, level - 1, and) + [Close] else MemberText(items[0], and)
  }

  lemma ChainStep(items: seq<Expr>, level: nat, and: bool)
    requires items != []
    ensures var span := Span(level);
            Chain(items, level, and)
            == if |items| <= span then Group(items, level, and)
               else Group(items[..span], level, and) + [Between(and)] + Chain(items[span..], level, and)
  {
  }

  lemma PartsLess(items: seq<Expr>, i: nat, end: nat)
    requires i <= end <= |items|
    ensures items[i..end] == items || (items decreases to items[i..end])
  {
    if end < |items| {
      assert items[..end][i..] == items[i..end];
      if i == 0 { assert items[0..end] == items[..end]; }
    } else {
      assert items[i..end] == items[i..];
      if i == 0 { assert items[0..] == items; }
    }
  }

  /** iwrite. */
  method WriteExpr(e: Expr) returns (out: seq<Tok>)
    ensures out == Written(e)
    decreases e, 2
  {
    match e
    case And(items) =>
      var level := WriteLevel(|items|);
      out := WriteChain(items, level, true);
    case Or(items) =>
      var level := WriteLevel(|items|);
      out := WriteChain(items, level, false);
    case _ => out := [Part(e)];
  }

  /** iwriteChain's loop over the groups of a level. */
  method WriteChain(items: seq<Expr>, level: nat, and: bool) returns (out: seq<Tok>)
    ensures out == Chain(items, level, and)
    decreases items, level, 2
  {
    hide Written, Chain, Span, Group, Joined;
    out := [];
    JoinedNone(items, level, and);
    var span := Span(level);
    var i := 0;
    assert items[0..] == items;
    while i < |items|
      invariant 0 <= i <= |items|
      invariant Chain(items, level, and) == Joined(out, 0 < i, items[i..], level, and)
      decreases |items| - i
    {
      var end := if i + span <= |items| then i + span else |items|;
      var left := items[i..];
      JoinedStep(out, 0 < i, left, end - i, level, and);
      assert left[..end - i] == items[i..end] && left[end - i..] == items[end..];
      PartsLess(items, i, end);
      GroupIs(items[i..end], level, and);
      out := out + if 0 < i then [Between(and)] else [];
      if 0 < level {
        var inner := WriteChain(items[i..end], level - 1, and);
        out := out + ([Open] + inner + [Close]);
      } else {
        var one := WriteExpr(items[i]);
        assert items[i..end] == [items[i]];
        out := out + if and && items[i].Or? then [Open] + one + [Close] else one;
      }
      i := end;
    }
    assert items[|items|..] == [];
    JoinedDone(out, level, and);
  }

  /** What is written so far and what is still to write. */
  function Joined(out: seq<Tok>, begun: bool, left: seq<Expr>, level: nat, and: bool): seq<Tok> {
    if left == [] then out else out + (if begun then [Between(and)] else []) + Chain(left, level, and)
  }

  /** A group more. */
  lemma JoinedStep(out: seq<Tok>, begun: bool, left: seq<Expr>, k: nat, level: nat, and: bool)
    requires left != [] && k == if |left| <= Span(level) then |left| else Span(level)
    ensures var more := out + (if begun then [Between(and)] else []) + Group(left[..k], level, and);
            Joined(out, begun, left, level, and) == Joined(more, true, left[k..], level, and)
  {
    hide Group;
    var before, group := out + (if begun then [Between(and)] else []), Group(left[..k], level, and);
    ChainStep(left, level, and);
    assert left[..|left|] == left;
    if k < |left| {
      var rest := Chain(left[k..], level, and);
      assert before + (group + [Between(and)] + rest) == before + group + [Between(and)] + rest;
    }
  }

  lemma JoinedNone(items: seq<Expr>, level: nat, and: bool)
    ensures Chain(items, level, and) == Joined([], false, items, level, and)
  {
    hide Group;
  }

  lemma JoinedDone(out: seq<Tok>, level: nat, and: bool)
    ensures Joined(out, true, [], level, and) == out && Joined(out, false, [], level, and) == out
  {
  }

  lemma GroupIs(items: seq<Expr>, level: nat, and: bool)
    requires 0 < |items| <= Span(level)
    ensures Group(items, level, and)
            == if 0 < level then [Open] + Chain(items, level - 1, and) + [Close] else MemberText(items[0], and)
    ensures level == 0 ==> |items| == 1
  {
  }
}
