/**
 What a repeat count makes of the element behind it (go/formatgrammar.go:312-334; sections 3.6
 and 3.7 of RFC 5234): as many texts of the element as the count allows, one after another.
 */
module AbnfCounts {
  import opened Numerals
  import opened Grammar
  import opened AbnfText
  import opened AbnfShown
  import opened AbnfBack
  import opened AbnfSpelling

  /** Texts one after another. */
  ghost function Strung(parts: seq<Text>): Text {
    if parts == [] then [] else parts[0] + Strung(parts[1..])
  }

  ghost predicate Within(c: Count, n: nat) {
    Least(c) <= n && (Most(c) < 0 || n <= Most(c))
  }

  ghost predicate AllDerived(rules: Rules, n: Node, parts: seq<Text>) {
    forall i :: 0 <= i < |parts| ==> Derives(rules, n, parts[i])
  }

  lemma {:induction false} TreesFor(rules: Rules, n: Node, parts: seq<Text>) returns (ts: seq<Tree>)
    requires AllDerived(rules, n, parts)
    ensures |ts| == |parts| && (forall i :: 0 <= i < |ts| ==> Parses(rules, n, ts[i])) && YieldAll(ts) == Strung(parts)
  {
    hide Parses, Yield;
    if parts == [] {
      ts := [];
    } else {
      assert Derives(rules, n, parts[0]);
      var t :| Parses(rules, n, t) && Yield(t) == parts[0];
      assert forall i :: 0 <= i < |parts[1..]| ==> parts[1..][i] == parts[i + 1];
      var more := TreesFor(rules, n, parts[1..]);
      ts := [t] + more;
      assert ts[1..] == more;
    }
  }

  lemma {:induction false} PartsOf(rules: Rules, n: Node, ts: seq<Tree>) returns (parts: seq<Text>)
    requires forall i :: 0 <= i < |ts| ==> Parses(rules, n, ts[i])
    ensures |parts| == |ts| && AllDerived(rules, n, parts) && YieldAll(ts) == Strung(parts)
  {
    hide Parses, Yield;
    if ts == [] {
      parts := [];
    } else {
      DerivesOf(rules, n, ts[0]);
      assert forall i :: 0 <= i < |ts[1..]| ==> ts[1..][i] == ts[i + 1];
      var more := PartsOf(rules, n, ts[1..]);
      parts := [Yield(ts[0])] + more;
      assert parts[1..] == more;
      forall i | 0 <= i < |parts| ensures Derives(rules, n, parts[i]) { if 0 < i { assert parts[i] == more[i - 1]; } }
    }
  }

  lemma OneStrung(w: Text)
    ensures Strung([w]) == w
  {
    assert [w][1..] == [];
  }

  /** The text is in as many parts as the count allows, each derived by the element. */
  ghost predicate Copies(rules: Rules, c: Count, n: Node, w: Text) {
    exists parts :: Within(c, |parts|) && AllDerived(rules, n, parts) && Strung(parts) == w
  }

  lemma OnceDerives(rules: Rules, n: Node, parts: seq<Text>)
    requires |parts| == 1 && AllDerived(rules, n, parts)
    ensures Derives(rules, n, Strung(parts))
  {
    hide Derives;
    assert parts == [parts[0]];
    OneStrung(parts[0]);
  }

  lemma RepDerives(rules: Rules, n: Node, min: nat, max: int, w: Text)
    ensures Derives(rules, Rep(n, min, max), w) <==>
      exists parts :: min <= |parts| && (max < 0 || |parts| <= max) && AllDerived(rules, n, parts) && Strung(parts) == w
  {
    hide AllDerived, Strung;
    if Derives(rules, Rep(n, min, max), w) {
      var t :| Parses(rules, Rep(n, min, max), t) && Yield(t) == w;
      var parts := PartsOf(rules, n, t.ts);
    }
    if parts :| min <= |parts| && (max < 0 || |parts| <= max) && AllDerived(rules, n, parts) && Strung(parts) == w {
      var ts := TreesFor(rules, n, parts);
      assert Parses(rules, Rep(n, min, max), RepTree(ts));
      DerivesOf(rules, Rep(n, min, max), RepTree(ts));
    }
  }

  /** A counted element derives exactly such texts. */
  lemma TimesDerives(rules: Rules, c: Count, n: Node, w: Text)
    ensures Derives(rules, Times(c, n), w) <==> Copies(rules, c, n, w)
  {
    hide Derives, AllDerived, Strung;
    if Least(c) == 1 && Most(c) == 1 {
      if Derives(rules, n, w) {
        OneStrung(w);
        assert AllDerived(rules, n, [w]) by { OneDerived(rules, n, w); }
        assert Within(c, |[w]|);
      }
      if parts :| Within(c, |parts|) && AllDerived(rules, n, parts) && Strung(parts) == w { OnceDerives(rules, n, parts); }
    } else {
      RepDerives(rules, n, Least(c), Most(c), w);
    }
  }

  lemma OneDerived(rules: Rules, n: Node, w: Text)
    requires Derives(rules, n, w)
    ensures AllDerived(rules, n, [w])
  {
  }

  /** A count in front of any readable element's text is read as that many of the element. */
  lemma CountedShown(c: Count, kid: Node, rest: string, depth: nat)
    requires WellCount(c) && Fits(kid, 3, depth) && Stop(rest, 3)
    ensures Readable(kid) && Repetition(CountText(c) + (Show(kid, 3) + rest), depth) == Read(Times(c, kid), rest)
  {
    hide Show, Bounds, Element, CountText, WellCount, Nest;
    Back(kid, 3, rest, depth);
    ShowOpens(kid, 3);
    OpensOn(Show(kid, 3), rest, 3);
    CountRead(c, Show(kid, 3) + rest);
  }

  lemma CountOpens(c: Count, s: string)
    requires WellCount(c) && Opens(s, 3)
    ensures Opens(CountText(c) + s, 0)
  {
    hide ReadDigits;
    if CountText(c) == "" { assert CountText(c) + s == s; } else { assert (CountText(c) + s)[0] == CountText(c)[0]; }
  }

  /** As the whole of a rule's elements, too. */
  lemma CountedElements(c: Count, kid: Node)
    requires WellCount(c) && Fits(kid, 3, 0)
    ensures Readable(kid) && Elements(CountText(c) + Show(kid, 3)) == Read(Times(c, kid), "")
  {
    hide Show, Repetition, Concatenation, CountText, WellCount, Nest, Fits, Spaces;
    CountedShown(c, kid, "", 0);
    ShowOpens(kid, 3);
    CountOpens(c, Show(kid, 3));
    var s := CountText(c) + Show(kid, 3);
    assert Show(kid, 3) + "" == Show(kid, 3);
    StopNone();
    RepetitionUp(s, 0, Times(c, kid), "");
    ConcatenationUp(s, 0, Times(c, kid), "");
  }

  lemma StopNone()
    ensures Stop("", 3) && Stop("", 1) && Stop("", 0) && Spaces("") == ""
  {
  }

  /** A plain number in front of an element stands for exactly so many, for any number of nine digits. */
  lemma ExactlyDerives(n: nat, kid: Node, rules: Rules, w: Text)
    requires n <= 999999999 && Fits(kid, 3, 0)
    ensures Readable(kid)
    ensures var out := Elements(DigitsOf(n) + Show(kid, 3));
            && out == Read(if n == 1 then kid else Rep(kid, n, n), "")
            && (Derives(rules, out.node, w) <==> exists parts :: |parts| == n && AllDerived(rules, kid, parts) && Strung(parts) == w)
  {
    hide Show, Elements, Derives, AllDerived, Strung, Fits, ReadDigits, DigitsOf;
    NineDigits(n);
    ReadOf(n);
    var c := Exactly(DigitsOf(n));
    CountedElements(c, kid);
    TimesDerives(rules, c, kid, w);
    assert forall k: nat :: Within(c, k) <==> k == n;
  }
}
