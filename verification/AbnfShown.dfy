/**
 What the reader of ABNF elements makes: exactly the readable nodes.  Every node it reads is
 one, and every one is read from its canonical text (go/formatgrammar.go:270-457).
 */
module AbnfShown {
  import opened Numerals
  import opened Ranges
  import opened Grammar
  import opened AbnfText

  // ----- the nodes there is a text for

  /** A rule name in lower case. */
  predicate NameText(s: string) {
    s != "" && 'a' <= s[0] <= 'z' && forall i :: 0 <= i < |s| ==> NameChar(s[i]) && !('A' <= s[i] <= 'Z')
  }

  predicate Quotable(cps: seq<int>) {
    cps != [] && forall i :: 0 <= i < |cps| ==> 0x20 <= cps[i] <= 0x7e && cps[i] != 0x22
  }

  predicate CodeLetter(c: int) {
    0x41 <= c <= 0x5a || 0x61 <= c <= 0x7a
  }

  const REPEAT_MAX := 999999999

  predicate Readable(n: Node) {
    match n
    case Alt(kids) => 2 <= |kids| && forall i :: 0 <= i < |kids| ==> Readable(kids[i])
    case Cat(kids) => |kids| != 1 && forall i :: 0 <= i < |kids| ==> Readable(kids[i])
    case Rep(kid, min, max) =>
      Readable(kid) && min <= REPEAT_MAX && max <= REPEAT_MAX && (max < 0 ==> max == -1) && (max < 0 || min <= max)
      && !(min == 1 && max == 1)
    case Ref(name) => NameText(name)
    case Str(cps, ci) =>
      if ci then Quotable(cps) && exists i :: 0 <= i < |cps| && CodeLetter(cps[i])
      else Quotable(cps) || (2 <= |cps| && forall i :: 0 <= i < |cps| ==> 0 <= cps[i] <= TOP)
    case Cls(chars) => |chars| == 1 && 0 <= chars[0].lo <= chars[0].hi <= TOP
  }

  /** The level a node's own text is at: alternation, concatenation, repetition or element. */
  function Rank(n: Node): nat {
    if n.Alt? then 0 else if n.Cat? && n.kids != [] then 1 else if n.Rep? then 2 else 3
  }

  predicate Optional(n: Node) {
    n.Rep? && n.min == 0 && n.max == 1
  }

  /** The groups that must nest to write a node at a level: an option is bracketed among elements. */
  function Nest(n: Node, level: nat): nat
    decreases n, 1
  {
    if level == 3 && Optional(n) then 1 + Nest(n.kid, 0)
    else if Rank(n) < level then 1 + NestIn(n)
    else NestIn(n)
  }

  function NestIn(n: Node): nat
    decreases n, 0
  {
    match n
    case Alt(kids) => NestAll(kids, 1)
    case Cat(kids) => NestAll(kids, 2)
    case Rep(kid, _, _) => Nest(kid, 3)
    case _ => 0
  }

  function NestAll(kids: seq<Node>, level: nat): nat
    decreases kids
  {
    if kids == [] then 0
    else
      var a, b := Nest(kids[0], level), NestAll(kids[1..], level);
      if a < b then b else a
  }

  /** A reading at one of the four levels. */
  function ReadAt(level: nat, s: string, depth: nat): Out {
    if level == 0 then Alternation(s, depth)
    else if level == 1 then Concatenation(s, depth)
    else if level == 2 then Repetition(s, depth)
    else Element(s, depth)
  }

  // ----- what is read is readable

  /** Readable, with groups enough left at a depth. */
  ghost predicate Fits(n: Node, level: nat, depth: nat) {
    Readable(n) && Nest(n, level) + depth <= NEST_MAX
  }

  lemma {:induction false} NestLevels(n: Node)
    ensures Nest(n, 0) == NestIn(n) <= Nest(n, 1) <= Nest(n, 2) <= Nest(n, 3) <= 1 + Nest(n, 0)
  {
    if Optional(n) { NestLevels(n.kid); }
  }

  lemma FitsLower(n: Node, level: nat, depth: nat)
    requires Fits(n, level + 1, depth) && level < 3
    ensures Fits(n, level, depth)
  {
    hide Readable, Nest;
    NestLevels(n);
  }

  lemma {:induction false} NestAllHas(kids: seq<Node>, level: nat, m: nat)
    requires forall i :: 0 <= i < |kids| ==> Nest(kids[i], level) <= m
    ensures NestAll(kids, level) <= m
  {
    hide Nest;
    if kids != [] {
      assert forall i :: 0 <= i < |kids[1..]| ==> kids[1..][i] == kids[i + 1];
      NestAllHas(kids[1..], level, m);
    }
  }

  ghost predicate AllFit(items: seq<Node>, level: nat, depth: nat) {
    depth <= NEST_MAX && forall i :: 0 <= i < |items| ==> Fits(items[i], level, depth)
  }

  lemma FitsPush(items: seq<Node>, n: Node, level: nat, depth: nat)
    requires AllFit(items, level, depth) && Fits(n, level, depth)
    ensures AllFit(items + [n], level, depth)
  {
    hide Fits;
  }

  /** One item is itself; more make a node of the level below. */
  lemma OneOrFits(items: seq<Node>, alt: bool, depth: nat)
    requires items != [] && AllFit(items, if alt then 1 else 2, depth)
    ensures Fits(OneOr(items, alt), if alt then 0 else 1, depth)
  {
    hide Nest;
    var level := if alt then 1 else 2;
    if |items| == 1 {
      FitsLower(items[0], level - 1, depth);
    } else {
      NestAllHas(items, level, NEST_MAX - depth);
      NestOwn(OneOr(items, alt));
    }
  }

  lemma NestOwn(n: Node)
    requires (n.Alt? || n.Cat?) && 2 <= |n.kids|
    ensures Nest(n, if n.Alt? then 0 else 1) == NestAll(n.kids, if n.Alt? then 1 else 2)
  {
  }

  lemma {:induction false} AltRead(s: string, depth: nat)
    requires depth <= NEST_MAX && Alternation(s, depth).Read?
    ensures Fits(Alternation(s, depth).node, 0, depth)
    decreases |s|, 5
  {
    hide Fits, Concatenation;
    var first := Concatenation(s, depth);
    CatRead(s, depth);
    SingleFits(first.node, 1, depth);
    AltsRead([first.node], Spaces(first.rest), depth);
  }

  lemma SingleFits(n: Node, level: nat, depth: nat)
    requires Fits(n, level, depth)
    ensures AllFit([n], level, depth)
  {
    hide Readable, Nest;
  }

  lemma {:induction false} AltsRead(alts: seq<Node>, s: string, depth: nat)
    requires alts != [] && AllFit(alts, 1, depth) && Alternatives(alts, s, depth).Read?
    ensures Fits(Alternatives(alts, s, depth).node, 0, depth)
    decreases |s|, 6
  {
    hide Fits, Concatenation;
    if s == "" || s[0] != '/' {
      OneOrFits(alts, true, depth);
    } else {
      var next := Concatenation(s[1..], depth);
      CatRead(s[1..], depth);
      FitsPush(alts, next.node, 1, depth);
      AltsRead(alts + [next.node], Spaces(next.rest), depth);
    }
  }

  lemma {:induction false} CatRead(s: string, depth: nat)
    requires depth <= NEST_MAX && Concatenation(s, depth).Read?
    ensures Fits(Concatenation(s, depth).node, 1, depth)
    decreases |s|, 4
  {
    hide Fits, Items;
    ItemsRead([], Spaces(s), depth);
  }

  lemma {:induction false} ItemsRead(items: seq<Node>, s: string, depth: nat)
    requires AllFit(items, 2, depth) && Items(items, s, depth).Read?
    ensures Fits(Items(items, s, depth).node, 1, depth)
    decreases |s|, 3
  {
    hide Fits, Repetition;
    if Ends(s) {
      OneOrFits(items, false, depth);
    } else {
      var next := Repetition(s, depth);
      RepRead(s, depth);
      FitsPush(items, next.node, 2, depth);
      ItemsRead(items + [next.node], Spaces(next.rest), depth);
    }
  }

  lemma {:induction false} RepRead(s: string, depth: nat)
    requires depth <= NEST_MAX && Repetition(s, depth).Read?
    ensures Fits(Repetition(s, depth).node, 2, depth)
    decreases |s|, 2
  {
    hide Fits, Element, Bounds;
    var r := Bounds(s);
    var e := Element(r.rest, depth);
    ElementRead(r.rest, depth);
    if r.min == 1 && r.max == 1 {
      FitsLower(e.node, 2, depth);
    } else {
      RepFits(e.node, r.min, r.max, depth);
    }
  }

  lemma RepFits(kid: Node, min: nat, max: int, depth: nat)
    requires Fits(kid, 3, depth) && min <= REPEAT_MAX && max <= REPEAT_MAX && (max < 0 ==> max == -1) && (max < 0 || min <= max)
    requires !(min == 1 && max == 1)
    ensures Fits(Rep(kid, min, max), 2, depth)
  {
  }

  lemma OptionFits(kid: Node, depth: nat)
    requires Fits(kid, 0, depth + 1)
    ensures Fits(Rep(kid, 0, 1), 3, depth)
  {
  }

  lemma {:induction false} ElementRead(s: string, depth: nat)
    requires depth <= NEST_MAX && Element(s, depth).Read?
    ensures Fits(Element(s, depth).node, 3, depth)
    decreases |s|, 1
  {
    hide Fits, Alternation, Quoted, Numeric, NameLead, LowerText;
    if s[0] == '(' || s[0] == '[' {
      AltRead(s[1..], depth + 1);
      var inner := Alternation(s[1..], depth + 1).node;
      if s[0] == '(' { GroupFits(inner, depth); } else { OptionFits(inner, depth); }
    } else if s[0] == '"' {
      CharsRead(s, true, depth);
    } else if s[0] == '%' {
      if 1 < |s| && (LowerChar(s[1]) == 's' || LowerChar(s[1]) == 'i') {
        CharsRead(s[2..], LowerChar(s[1]) == 'i', depth);
      } else {
        NumericRead(s, depth);
      }
    } else {
      NameRead(s, depth);
    }
  }

  lemma GroupFits(n: Node, depth: nat)
    requires Fits(n, 0, depth + 1)
    ensures Fits(n, 3, depth)
  {
    hide Readable, Nest;
    NestLevels(n);
  }

  /** An atom needs no group. */
  lemma AtomFits(n: Node, depth: nat)
    requires Readable(n) && depth <= NEST_MAX && (n.Str? || n.Cls? || n.Ref? || n == Cat([]))
    ensures Fits(n, 3, depth)
  {
  }

  lemma {:induction false} QuoteFree(s: string, i: nat)
    requires i < QuoteAt(s)
    ensures s[i] != '"'
  {
    if 0 < i { QuoteFree(s[1..], i - 1); }
  }

  lemma CharsRead(s: string, ci: bool, depth: nat)
    requires depth <= NEST_MAX && Quoted(s, ci).Read?
    ensures Fits(Quoted(s, ci).node, 3, depth)
  {
    hide Fits;
    var end := QuoteAt(s[1..]);
    var text := s[1..1 + end];
    forall i | 0 <= i < |text| ensures text[i] != '"' {
      QuoteFree(s[1..], i);
      assert s[1..][i] == text[i];
    }
    if text != "" {
      var cps := Codes(text);
      assert Quotable(cps);
      if HasLetter(text) {
        var i :| 0 <= i < |text| && Letter(text[i]);
        assert CodeLetter(cps[i]);
      }
    }
    AtomFits(Quoted(s, ci).node, depth);
  }

  lemma NumericRead(s: string, depth: nat)
    requires depth <= NEST_MAX && Numeric(s).Read?
    ensures Fits(Numeric(s).node, 3, depth)
  {
    hide Fits, HexLead, ValueIn, InBase, Pointed;
    AtomFits(Numeric(s).node, depth);
  }

  lemma {:induction false} LowerName(s: string, k: nat)
    requires k <= |s| && forall i :: 0 <= i < k ==> NameChar(s[i])
    ensures forall i :: 0 <= i < k ==> LowerText(s[..k])[i] == LowerChar(s[i])
  {
    if 0 < k {
      assert s[..k][1..] == s[1..][..k - 1];
      LowerName(s[1..], k - 1);
      forall i | 0 <= i < k ensures LowerText(s[..k])[i] == LowerChar(s[i]) {
        if 0 < i { assert LowerText(s[..k])[i] == LowerText(s[1..][..k - 1])[i - 1] && s[1..][i - 1] == s[i]; }
      }
    }
  }

  lemma {:induction false} NameLeadIs(s: string)
    ensures forall i :: 0 <= i < NameLead(s) ==> NameChar(s[i])
    ensures s != "" && NameChar(s[0]) ==> 0 < NameLead(s)
  {
    if s != "" && NameChar(s[0]) {
      NameLeadIs(s[1..]);
      forall i | 0 <= i < NameLead(s) ensures NameChar(s[i]) { if 0 < i { assert s[i] == s[1..][i - 1]; } }
    }
  }

  lemma NameRead(s: string, depth: nat)
    requires depth <= NEST_MAX && s != "" && Letter(s[0])
    ensures Fits(Ref(LowerText(s[..NameLead(s)])), 3, depth)
  {
    hide Fits, NameLead, LowerText;
    NameLeadIs(s);
    var k := NameLead(s);
    LowerName(s, k);
    AtomFits(Ref(LowerText(s[..k])), depth);
  }

  /** Whatever fReadElements reads is readable, and shaped as the analysis expects. */
  lemma ElementsReadable(s: string)
    requires Elements(s).Read?
    ensures Fits(Elements(s).node, 0, 0)
  {
    hide Fits, Alternation;
    AltRead(s, 0);
  }

  // ----- the canonical text

  function HexOf(n: nat): (s: string)
    ensures s != "" && forall i :: 0 <= i < |s| ==> 0 <= HexValue(s[i])
  {
    if n < 16 then [HexUpper(n)] else HexOf(n / 16) + [HexUpper(n % 16)]
  }

  function CharsOf(cps: seq<int>): (s: string)
    requires forall i :: 0 <= i < |cps| ==> 0x20 <= cps[i] <= 0x7e
    ensures |s| == |cps| && forall i :: 0 <= i < |cps| ==> s[i] as int == cps[i]
  {
    seq(|cps|, i requires 0 <= i < |cps| => cps[i] as char)
  }

  function Points(cps: seq<int>): string
    requires forall i :: 0 <= i < |cps| ==> 0 <= cps[i]
  {
    if cps == [] then "" else "." + HexOf(cps[0]) + Points(cps[1..])
  }

  function ShowStr(cps: seq<int>, ci: bool): string
    requires Readable(Str(cps, ci))
  {
    if Quotable(cps) then (if ci then "" else "%s") + "\"" + CharsOf(cps) + "\""
    else "%x" + HexOf(cps[0]) + Points(cps[1..])
  }

  function ShowBounds(min: nat, max: int): string {
    DigitsOf(min) + "*" + if max < 0 then "" else DigitsOf(max)
  }

  function Show(n: Node, level: nat): string
    requires Readable(n)
    decreases n, 1
  {
    if level == 3 && Optional(n) then "[" + Show(n.kid, 0) + "]"
    else if Rank(n) < level then "(" + Inside(n) + ")"
    else Inside(n)
  }

  function Inside(n: Node): string
    requires Readable(n)
    decreases n, 0
  {
    match n
    case Alt(kids) => ShowAll(kids, 1, " / ")
    case Cat(kids) => if kids == [] then "\"\"" else ShowAll(kids, 2, " ")
    case Rep(kid, min, max) => ShowBounds(min, max) + Show(kid, 3)
    case Ref(name) => name
    case Str(cps, ci) => ShowStr(cps, ci)
    case Cls(chars) => "%x" + HexOf(chars[0].lo) + "-" + HexOf(chars[0].hi)
  }

  function ShowAll(kids: seq<Node>, level: nat, sep: string): string
    requires forall i :: 0 <= i < |kids| ==> Readable(kids[i])
    decreases kids
  {
    if kids == [] then "" else Show(kids[0], level) + if |kids| == 1 then "" else sep + ShowAll(kids[1..], level, sep)
  }
}
