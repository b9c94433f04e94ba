/**
 What the core rules derive (go/formatgrammar.go:122-143), told from appendix B.1 of RFC 5234.
 */
module CoreRules {
  import opened Options
  import opened Ranges
  import opened Grammar
  import opened AbnfRules
  import opened AbnfCounts
  import opened AbnfSpelling

  /** The characters of a core rule of one character. */
  predicate CoreChar(name: string, c: int) {
    if name == "alpha" then 0x41 <= c <= 0x5a || 0x61 <= c <= 0x7a
    else if name == "bit" then c == 0x30 || c == 0x31
    else if name == "char" then 0x01 <= c <= 0x7f
    else if name == "cr" then c == 0x0d
    else if name == "ctl" then 0x00 <= c <= 0x1f || c == 0x7f
    else if name == "digit" then 0x30 <= c <= 0x39
    else if name == "dquote" then c == 0x22
    else if name == "hexdig" then 0x30 <= c <= 0x39 || 0x41 <= c <= 0x46 || 0x61 <= c <= 0x66
    else if name == "htab" then c == 0x09
    else if name == "lf" then c == 0x0a
    else if name == "octet" then 0x00 <= c <= 0xff
    else if name == "sp" then c == 0x20
    else if name == "vchar" then 0x21 <= c <= 0x7e
    else name == "wsp" && (c == 0x20 || c == 0x09)
  }

  /** White space, and line breaks with white space behind each. */
  predicate LinearSpace(w: Text)
    decreases |w|
  {
    || w == []
    || ((w[0] == 0x20 || w[0] == 0x09) && LinearSpace(w[1..]))
    || (3 <= |w| && w[0] == 0x0d && w[1] == 0x0a && (w[2] == 0x20 || w[2] == 0x09) && LinearSpace(w[3..]))
  }

  predicate CoreText(name: string, w: Text) {
    if name == "crlf" then w == [0x0d, 0x0a]
    else if name == "lwsp" then LinearSpace(w)
    else |w| == 1 && CoreChar(name, w[0])
  }

  lemma ClassDerives(rules: Rules, chars: seq<Range>, w: Text)
    ensures Derives(rules, Cls(chars), w) <==> |w| == 1 && In(chars, w[0])
  {
    if |w| == 1 && In(chars, w[0]) { DerivesOf(rules, Cls(chars), TextTree(w)); }
  }

  lemma StringDerives(rules: Rules, cps: seq<int>, w: Text)
    ensures Derives(rules, Str(cps, false), w) <==> w == cps
  {
    if w == cps {
      assert forall i :: 0 <= i < |cps| ==> SameChar(cps[i], w[i], false);
      DerivesOf(rules, Str(cps, false), TextTree(w));
    }
    if Derives(rules, Str(cps, false), w) {
      var t :| Parses(rules, Str(cps, false), t) && Yield(t) == w;
      assert forall i :: 0 <= i < |cps| ==> SameChar(cps[i], t.w[i], false);
      assert t.w == cps;
    }
  }

  lemma InOne(r: Range, c: int)
    ensures In([r], c) <==> r.lo <= c <= r.hi
  {
    assert [r][0] == r;
  }

  lemma InTwo(r: Range, q: Range, c: int)
    ensures In([r, q], c) <==> r.lo <= c <= r.hi || q.lo <= c <= q.hi
  {
    assert [r, q][0] == r && [r, q][1] == q;
  }

  lemma InThree(r: Range, q: Range, p: Range, c: int)
    ensures In([r, q, p], c) <==> r.lo <= c <= r.hi || q.lo <= c <= q.hi || p.lo <= c <= p.hi
  {
    assert [r, q, p][0] == r && [r, q, p][1] == q && [r, q, p][2] == p;
  }

  lemma CoreClass(name: string, c: int)
    requires name in CORE_NAMES && name != "crlf" && name != "lwsp"
    ensures Core(name).Cls? && (In(Core(name).chars, c) <==> CoreChar(name, c))
  {
    hide In;
    match Core(name)
    case Cls(chars) =>
      if |chars| == 1 { InOne(chars[0], c); assert chars == [chars[0]]; }
      if |chars| == 2 { InTwo(chars[0], chars[1], c); assert chars == [chars[0], chars[1]]; }
      if |chars| == 3 { InThree(chars[0], chars[1], chars[2], c); assert chars == [chars[0], chars[1], chars[2]]; }
    case _ =>
  }

  lemma AltDerives(rules: Rules, a: Node, b: Node, w: Text)
    ensures Derives(rules, Alt([a, b]), w) <==> Derives(rules, a, w) || Derives(rules, b, w)
  {
    hide Derives;
    var n := Alt([a, b]);
    if Derives(rules, n, w) {
      var t := TreeOf(rules, n, w);
      if t.pick == 0 { DerivesOf(rules, a, t.t); } else { DerivesOf(rules, b, t.t); }
    }
    if Derives(rules, a, w) {
      var t := TreeOf(rules, a, w);
      DerivesOf(rules, n, AltTree(0, t));
    }
    if Derives(rules, b, w) {
      var t := TreeOf(rules, b, w);
      DerivesOf(rules, n, AltTree(1, t));
    }
  }

  lemma TreeOf(rules: Rules, n: Node, w: Text) returns (t: Tree)
    requires Derives(rules, n, w)
    ensures Parses(rules, n, t) && Yield(t) == w
  {
    t :| Parses(rules, n, t) && Yield(t) == w;
  }

  lemma YieldTwo(x: Tree, y: Tree)
    ensures YieldAll([x, y]) == Yield(x) + Yield(y)
  {
    assert [x, y][1..] == [y] && [y][1..] == [];
    assert YieldAll([y]) == Yield(y) + [] == Yield(y);
  }

  lemma PairParses(rules: Rules, a: Node, b: Node, t: Tree)
    ensures Parses(rules, Cat([a, b]), t) <==> t.CatTree? && |t.ts| == 2 && Parses(rules, a, t.ts[0]) && Parses(rules, b, t.ts[1])
  {
    var kids := [a, b];
    assert kids[0] == a && kids[1] == b && |kids| == 2;
  }

  lemma CatDerives(rules: Rules, a: Node, b: Node, w: Text)
    ensures Derives(rules, Cat([a, b]), w) <==> exists u, v :: w == u + v && Derives(rules, a, u) && Derives(rules, b, v)
  {
    hide Derives, Parses, Yield;
    if Derives(rules, Cat([a, b]), w) {
      var t := TreeOf(rules, Cat([a, b]), w);
      PairParses(rules, a, b, t);
      var x, y := t.ts[0], t.ts[1];
      assert t.ts == [x, y];
      CatYield(x, y);
      DerivesOf(rules, a, x);
      DerivesOf(rules, b, y);
      assert w == Yield(x) + Yield(y);
    }
    if u, v :| w == u + v && Derives(rules, a, u) && Derives(rules, b, v) {
      var x := TreeOf(rules, a, u);
      var y := TreeOf(rules, b, v);
      PairParses(rules, a, b, CatTree([x, y]));
      CatYield(x, y);
      DerivesOf(rules, Cat([a, b]), CatTree([x, y]));
    }
  }

  lemma CatYield(x: Tree, y: Tree)
    ensures Yield(CatTree([x, y])) == Yield(x) + Yield(y)
  {
    YieldTwo(x, y);
  }

  /** White space, or a line break and white space. */
  predicate Fold(w: Text) {
    (|w| == 1 && (w[0] == 0x20 || w[0] == 0x09)) || (|w| == 3 && w[0] == 0x0d && w[1] == 0x0a && (w[2] == 0x20 || w[2] == 0x09))
  }

  lemma WspDerives(rules: Rules, w: Text)
    ensures Derives(rules, WSP, w) <==> |w| == 1 && (w[0] == 0x20 || w[0] == 0x09)
  {
    hide Derives, In;
    ClassDerives(rules, WSP.chars, w);
    if |w| == 1 { InTwo(WSP.chars[0], WSP.chars[1], w[0]); }
  }

  lemma FoldDerives(rules: Rules, w: Text)
    ensures Derives(rules, Alt([WSP, Cat([CRLF, WSP])]), w) <==> Fold(w)
  {
    hide Derives;
    AltDerives(rules, WSP, Cat([CRLF, WSP]), w);
    CatDerives(rules, CRLF, WSP, w);
    WspDerives(rules, w);
    if u, v :| w == u + v && Derives(rules, CRLF, u) && Derives(rules, WSP, v) {
      StringDerives(rules, CRLF.cps, u);
      WspDerives(rules, v);
      assert w[0] == u[0] && w[1] == u[1] && w[2] == v[0];
    }
    if |w| == 3 && Fold(w) {
      StringDerives(rules, CRLF.cps, w[..2]);
      WspDerives(rules, w[2..]);
      assert w[..2] == [0x0d, 0x0a] && w == w[..2] + w[2..];
    }
  }

  ghost predicate Folds(parts: seq<Text>) {
    forall i :: 0 <= i < |parts| ==> Fold(parts[i])
  }

  lemma {:induction false} FoldsLinear(parts: seq<Text>)
    requires Folds(parts)
    ensures LinearSpace(Strung(parts))
    decreases |parts|
  {
    if parts != [] {
      assert forall i :: 0 <= i < |parts[1..]| ==> parts[1..][i] == parts[i + 1];
      FoldsLinear(parts[1..]);
      var w, rest := parts[0], Strung(parts[1..]);
      assert Strung(parts) == w + rest && Fold(w);
      if |w| == 1 { assert (w + rest)[1..] == rest; } else { assert (w + rest)[3..] == rest; }
    }
  }

  lemma FoldsCons(w: Text, parts: seq<Text>)
    requires Fold(w) && Folds(parts)
    ensures Folds([w] + parts) && Strung([w] + parts) == w + Strung(parts)
  {
    assert ([w] + parts)[1..] == parts;
  }

  lemma {:induction false} LinearFolds(w: Text) returns (parts: seq<Text>)
    requires LinearSpace(w)
    ensures Folds(parts) && Strung(parts) == w
    decreases |w|
  {
    if w == [] {
      parts := [];
    } else if (w[0] == 0x20 || w[0] == 0x09) && LinearSpace(w[1..]) {
      var more := LinearFolds(w[1..]);
      parts := [w[..1]] + more;
      FoldsCons(w[..1], more);
      assert w == w[..1] + w[1..];
    } else {
      var more := LinearFolds(w[3..]);
      parts := [w[..3]] + more;
      FoldsCons(w[..3], more);
      assert w == w[..3] + w[3..];
    }
  }

  lemma LwspDerives(rules: Rules, w: Text)
    ensures Derives(rules, Rep(Alt([WSP, Cat([CRLF, WSP])]), 0, -1), w) <==> LinearSpace(w)
  {
    hide Derives, LinearSpace, Strung;
    var fold := Alt([WSP, Cat([CRLF, WSP])]);
    RepDerives(rules, fold, 0, -1, w);
    if parts :| AllDerived(rules, fold, parts) && Strung(parts) == w {
      forall i | 0 <= i < |parts| ensures Fold(parts[i]) { FoldDerives(rules, parts[i]); }
      FoldsLinear(parts);
    }
    if LinearSpace(w) {
      var parts := LinearFolds(w);
      forall i | 0 <= i < |parts| ensures Derives(rules, fold, parts[i]) { FoldDerives(rules, parts[i]); }
      assert AllDerived(rules, fold, parts);
    }
  }

  /** Each core rule derives exactly the texts the appendix gives it. */
  lemma CoreDerives(rules: Rules, name: string, w: Text)
    requires name in CORE_NAMES
    ensures Derives(rules, Core(name), w) <==> CoreText(name, w)
  {
    hide Derives, LinearSpace, CoreChar;
    if name == "crlf" {
      StringDerives(rules, CRLF.cps, w);
    } else if name == "lwsp" {
      LwspDerives(rules, w);
    } else {
      CoreClass(name, 0);
      ClassDerives(rules, Core(name).chars, w);
      if |w| == 1 { CoreClass(name, w[0]); }
    }
  }

  predicate CoreNamed(name: string) {
    || name == "alpha" || name == "bit" || name == "char" || name == "cr" || name == "crlf" || name == "ctl" || name == "digit"
    || name == "dquote" || name == "hexdig" || name == "htab" || name == "lf" || name == "octet" || name == "sp" || name == "vchar"
    || name == "wsp" || name == "lwsp"
  }

  /** A name no rule of the source has is a core rule's, or else one of the library. */
  lemma FoundIs(lib: Rules, name: string, n: Node)
    ensures Found(lib, name) == Some(n) <==> if CoreNamed(name) then n == Core(name) else name in lib && lib[name] == n
  {
    hide Core;
  }
}
