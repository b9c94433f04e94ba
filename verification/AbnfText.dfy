/**
 Reading the elements of an ABNF rule (fReadElements, go/formatgrammar.go:270-457; sections 3.1
 to 3.8 of RFC 5234 and section 2.1 of RFC 7405), by descent through four levels: alternation,
 concatenation, repetition and element.
 */
module AbnfText {
  import opened Numerals
  import opened Ranges
  import opened Grammar

  const NEST_MAX: nat := 64
  const REPEAT_DIGITS: nat := 9

  /** A node and the text behind it, or a refusal. */
  datatype Out = Read(node: Node, rest: string) | Bad

  // ----- characters

  predicate Space(c: char) {
    c == ' ' || c == '\t'
  }

  predicate Digit10(c: char) {
    '0' <= c <= '9'
  }

  predicate Letter(c: char) {
    'A' <= c <= 'Z' || 'a' <= c <= 'z'
  }

  predicate NameChar(c: char) {
    Letter(c) || Digit10(c) || c == '-'
  }

  function LowerChar(c: char): char {
    if 'A' <= c <= 'Z' then (c as int + 32) as char else c
  }

  function LowerText(s: string): (t: string)
    ensures |t| == |s|
  {
    if s == "" then "" else [LowerChar(s[0])] + LowerText(s[1..])
  }

  function Spaces(s: string): (t: string)
    ensures |t| <= |s| && (t != "" ==> !Space(t[0]))
  {
    if s != "" && Space(s[0]) then Spaces(s[1..]) else s
  }

  function DigitsLead(s: string): (k: nat)
    ensures k <= |s| && IsDigits(s[..k])
  {
    if s == "" || !Digit10(s[0]) then 0 else 1 + DigitsLead(s[1..])
  }

  function NameLead(s: string): (k: nat)
    ensures k <= |s|
  {
    if s == "" || !NameChar(s[0]) then 0 else 1 + NameLead(s[1..])
  }

  function HexLead(s: string): (k: nat)
    ensures k <= |s|
  {
    if s == "" || HexValue(s[0]) < 0 then 0 else 1 + HexLead(s[1..])
  }

  // ----- strings and numbers

  /** Where a string ends, or its length. */
  function QuoteAt(s: string): (k: nat)
    ensures k <= |s|
  {
    if s == "" || s[0] == '"' then 0 else 1 + QuoteAt(s[1..])
  }

  predicate Printable(s: string) {
    forall i :: 0 <= i < |s| ==> 0x20 <= s[i] as int <= 0x7e
  }

  predicate HasLetter(s: string) {
    exists i :: 0 <= i < |s| && Letter(s[i])
  }

  function Codes(s: string): (cps: seq<int>)
    ensures |cps| == |s| && forall i :: 0 <= i < |s| ==> cps[i] == s[i] as int
  {
    seq(|s|, i requires 0 <= i < |s| => s[i] as int)
  }

  /** chars: a quoted string, which an empty one reads as nothing in sequence. */
  function Quoted(s: string, ci: bool): (out: Out)
    ensures out.Read? ==> |out.rest| < |s|
  {
    if s == "" || s[0] != '"' then Bad
    else
      var end := QuoteAt(s[1..]);
      if end == |s| - 1 then Bad
      else
        var text := s[1..1 + end];
        if !Printable(text) then Bad
        else if text == "" then Read(Cat([]), s[end + 2..])
        else Read(Str(Codes(text), ci && HasLetter(text)), s[end + 2..])
  }

  /** The base a number is written in, 0 for no such mark. */
  function BaseOf(c: char): (b: int)
    ensures b == 0 || b == 2 || b == 10 || b == 16
  {
    if c == 'x' || c == 'X' then 16 else if c == 'd' || c == 'D' then 10 else if c == 'b' || c == 'B' then 2 else 0
  }

  predicate InBase(s: string, base: int) {
    s != "" && forall i :: 0 <= i < |s| ==> 0 <= HexValue(s[i]) < base
  }

  function ValueIn(s: string, base: int): (n: int)
    requires 0 < base && forall i :: 0 <= i < |s| ==> 0 <= HexValue(s[i]) < base
    ensures 0 <= n
  {
    if s == "" then 0 else ValueIn(s[..|s| - 1], base) * base + HexValue(s[|s| - 1])
  }

  datatype Values = Values(ns: seq<int>, rest: string) | BadValues

  /** Further values behind points, as many as there are. */
  function Pointed(ns: seq<int>, s: string, base: int): (out: Values)
    requires 0 < base
    ensures out.Values? ==> |out.rest| <= |s| && |ns| <= |out.ns|
    ensures out.Values? && (forall i :: 0 <= i < |ns| ==> 0 <= ns[i] <= TOP) ==> forall i :: 0 <= i < |out.ns| ==> 0 <= out.ns[i] <= TOP
    decreases |s|
  {
    if s == "" || s[0] != '.' || HexLead(s[1..]) == 0 then Values(ns, s)
    else
      var k := HexLead(s[1..]);
      var run := s[1..][..k];
      if !InBase(run, base) || TOP < ValueIn(run, base) then BadValues
      else Pointed(ns + [ValueIn(run, base)], s[1..][k..], base)
  }

  /** number: a value, a range of values or values in sequence. */
  function Numeric(s: string): (out: Out)
    ensures out.Read? ==> |out.rest| < |s|
  {
    if |s| < 3 || s[0] != '%' || BaseOf(s[1]) == 0 || HexLead(s[2..]) == 0 then Bad
    else
      var base, k := BaseOf(s[1]), HexLead(s[2..]);
      var run, rest := s[2..][..k], s[2..][k..];
      if !InBase(run, base) || TOP < ValueIn(run, base) then Bad
      else
        var lo := ValueIn(run, base);
        if rest != "" && rest[0] == '-' && 0 < HexLead(rest[1..]) then
          var j := HexLead(rest[1..]);
          var to := rest[1..][..j];
          if !InBase(to, base) || TOP < ValueIn(to, base) || ValueIn(to, base) < lo then Bad
          else Read(Cls([Range(lo, ValueIn(to, base))]), rest[1..][j..])
        else
          var more := Pointed([lo], rest, base);
          if more.BadValues? then Bad
          else if |more.ns| == 1 then Read(Cls([Range(lo, lo)]), more.rest)
          else Read(Str(more.ns, false), more.rest)
  }

  // ----- the four levels

  function OneOr(items: seq<Node>, alt: bool): Node
    requires items != []
  {
    if |items| == 1 then items[0] else if alt then Alt(items) else Cat(items)
  }

  predicate Ends(s: string) {
    s == "" || s[0] == '/' || s[0] == ')' || s[0] == ']'
  }

  function Alternation(s: string, depth: nat): (out: Out)
    ensures out.Read? ==> |out.rest| < |s|
    decreases |s|, 5
  {
    var first := Concatenation(s, depth);
    if first.Bad? then Bad else Alternatives([first.node], Spaces(first.rest), depth)
  }

  /** alternation's loop, behind its first alternative and the space after it. */
  function Alternatives(alts: seq<Node>, s: string, depth: nat): (out: Out)
    requires alts != []
    ensures out.Read? ==> |out.rest| <= |s|
    decreases |s|, 6
  {
    if s == "" || s[0] != '/' then Read(OneOr(alts, true), s)
    else
      var next := Concatenation(s[1..], depth);
      if next.Bad? then Bad else Alternatives(alts + [next.node], Spaces(next.rest), depth)
  }

  function Concatenation(s: string, depth: nat): (out: Out)
    ensures out.Read? ==> |out.rest| < |s|
    decreases |s|, 4
  {
    Items([], Spaces(s), depth)
  }

  /** concatenation's loop, with the space in front of an item taken off. */
  function Items(items: seq<Node>, s: string, depth: nat): (out: Out)
    ensures out.Read? ==> |out.rest| <= |s| && (items == [] ==> |out.rest| < |s|)
    decreases |s|, 3
  {
    if Ends(s) then if items == [] then Bad else Read(OneOr(items, false), s)
    else
      var next := Repetition(s, depth);
      if next.Bad? then Bad else Items(items + [next.node], Spaces(next.rest), depth)
  }

  datatype Repeat = Repeat(min: int, max: int, rest: string) | BadRepeat

  /** The bounds in front of an element; without any, one. */
  function Bounds(s: string): (r: Repeat)
    ensures r.Repeat? ==> 0 <= r.min && |r.rest| <= |s| && (r.max < 0 ==> r.max == -1) && (r.max < 0 || r.min <= r.max)
    ensures r.Repeat? ==> r.min < 1000000000 && r.max < 1000000000
  {
    var a := DigitsLead(s);
    var s1 := s[a..];
    var star := s1 != "" && s1[0] == '*';
    var s2 := if star then s1[1..] else s1;
    var b := if star then DigitsLead(s2) else 0;
    if REPEAT_DIGITS < a || REPEAT_DIGITS < b then BadRepeat
    else
      ReadBound(s[..a]);
      ReadBound(s2[..b]);
      var lo, hi := if a == 0 then -1 else ReadDigits(s[..a]), if b == 0 then -1 else ReadDigits(s2[..b]);
      var min := if !star && 0 <= lo then lo else if star then (if lo < 0 then 0 else lo) else 1;
      var max := if !star && 0 <= lo then lo else if star then hi else 1;
      if 0 <= max < min then BadRepeat else Repeat(min, max, s2[b..])
  }

  lemma {:induction false} ReadBound(s: string)
    requires IsDigits(s) && |s| <= REPEAT_DIGITS
    ensures ReadDigits(s) < 1000000000
  {
    PowerBound(s, |s|);
  }

  function Tens(k: nat): nat {
    if k == 0 then 1 else 10 * Tens(k - 1)
  }

  lemma {:induction false} PowerBound(s: string, k: nat)
    requires IsDigits(s) && |s| == k && k <= 9
    ensures ReadDigits(s) < Tens(k) <= 1000000000
  {
    TensNine(k);
    if 0 < k {
      PowerBound(s[..k - 1], k - 1);
    }
  }

  lemma TensNine(k: nat)
    requires k <= 9
    ensures Tens(k) <= 1000000000
  {
    TensTo(k, 9);
    assert Tens(3) == 1000;
    assert Tens(6) == 1000000;
    assert Tens(9) == 1000000000;
  }

  lemma {:induction false} TensTo(a: nat, b: nat)
    requires a <= b
    ensures Tens(a) <= Tens(b)
  {
    if a < b { TensTo(a, b - 1); }
  }

  function Repetition(s: string, depth: nat): (out: Out)
    ensures out.Read? ==> |out.rest| < |s|
    decreases |s|, 2
  {
    var r := Bounds(s);
    if r.BadRepeat? then Bad
    else
      var e := Element(r.rest, depth);
      if e.Bad? then Bad
      else if r.min == 1 && r.max == 1 then e
      else Read(Rep(e.node, r.min, r.max), e.rest)
  }

  function Element(s: string, depth: nat): (out: Out)
    ensures out.Read? ==> |out.rest| < |s|
    decreases |s|, 1
  {
    if s == "" || Space(s[0]) then Bad
    else if s[0] == '(' || s[0] == '[' then
      if depth == NEST_MAX then Bad
      else
        var inner := Alternation(s[1..], depth + 1);
        if inner.Bad? || inner.rest == "" || inner.rest[0] != (if s[0] == '(' then ')' else ']') then Bad
        else Read(if s[0] == '(' then inner.node else Rep(inner.node, 0, 1), inner.rest[1..])
    else if s[0] == '"' then Quoted(s, true)
    else if s[0] == '%' then
      if 1 < |s| && (LowerChar(s[1]) == 's' || LowerChar(s[1]) == 'i') then Quoted(s[2..], LowerChar(s[1]) == 'i')
      else Numeric(s)
    else if !Letter(s[0]) then Bad
    else Read(Ref(LowerText(s[..NameLead(s)])), s[NameLead(s)..])
  }

  /** fReadElements: the whole text, or a refusal. */
  function Elements(s: string): (out: Out)
    ensures out.Read? ==> out.rest == ""
  {
    var out := Alternation(s, 0);
    if out.Read? && out.rest == "" then out else Bad
  }
}
