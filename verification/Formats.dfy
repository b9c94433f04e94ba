/**
 A format from its text (readGrammarOf, go/formatgrammar.go:854-886, and recogniseFormat): the
 reader, the analysis and the recogniser put together decide the language the text defines.
 */
module Formats {
  import opened Grammar
  import opened AbnfText
  import opened AbnfShown
  import opened AbnfSource
  import opened Machine
  import opened MachineEnds
  import opened Recognise
  import AbnfLayout
  import AbnfRules
  import Analyse
  import UnifiedDiff

  /** A format, or why there is none. */
  datatype Loaded = Usable(g: Format) | NoGrammar | Undecided(why: Analyse.Reason)

  /** The rules read from a text, whatever order they were found in. */
  ghost predicate RulesOf(t: AbnfRules.Table, lib: Rules, rules: Rules, start: string) {
    && t.Table? && AbnfRules.Completes(t, lib, rules) && start == LowerText(t.start) && start in t.rules
    && (forall n :: n in t.rules ==> n in rules && rules[n] == t.rules[n])
    && forall w :: AbnfRules.Completes(t, lib, w) ==> rules.Keys <= w.Keys
  }

  /** The analysis's reason against the rules holds of them. */
  ghost predicate Against(rules: Rules, why: Analyse.Reason) {
    ReadRules(rules) && exists at :: Analyse.Least(rules, at) && Analyse.ReasonHolds(rules, at, why)
  }

  /** One character decides the rules, at the least solution of their equations. */
  ghost predicate Decides(rules: Rules) {
    exists at :: Analyse.Least(rules, at) && Analyse.OneCharacter(rules, at)
  }

  lemma NotBoth(rules: Rules, why: Analyse.Reason)
    requires Against(rules, why)
    ensures !Decides(rules)
  {
    hide Analyse.Least, Analyse.OneCharacter, Analyse.ReasonHolds;
    var a :| Analyse.Least(rules, a) && Analyse.ReasonHolds(rules, a, why);
    Analyse.RefusedNot(rules, a, why);
    forall b | Analyse.Least(rules, b) ensures !Analyse.OneCharacter(rules, b) { Analyse.LeastUnique(rules, a, b); }
  }

  /** A source has one set of rules. */
  lemma RulesUnique(t: AbnfRules.Table, lib: Rules, a: Rules, b: Rules, m: string, n: string)
    requires RulesOf(t, lib, a, m) && RulesOf(t, lib, b, n)
    ensures a == b && m == n
  {
    hide AbnfRules.RuleNamed, AbnfRules.Found, LowerText;
    assert a.Keys == b.Keys;
    forall k | k in a ensures a[k] == b[k] {}
  }

  lemma ReadRulesOf(src: string, lib: Rules, r: AbnfRules.Reading)
    requires r.Whole? && AbnfRules.ReadOf(AbnfRules.SourceTable(src), lib, r) && r.order != [] && r.order[0] == LowerText(r.start)
    requires AbnfRules.GoodTable(AbnfRules.SourceTable(src)) && AbnfRules.SourceTable(src).start != ""
    ensures RulesOf(AbnfRules.SourceTable(src), lib, r.rules, LowerText(r.start))
  {
    hide AbnfRules.SourceTable, AbnfRules.Completes, AbnfRules.Found, AbnfRules.AllShaped, LowerText;
    var t := AbnfRules.SourceTable(src);
    assert t.order[0] in t.order;
  }

  lemma SourceGood(src: string, lib: Rules)
    requires AbnfRules.Completed(AbnfRules.SourceTable(src), lib)
    ensures AbnfRules.GoodTable(AbnfRules.SourceTable(src)) && AbnfRules.SourceTable(src).start != ""
  {
    AbnfRules.TableGood(AbnfRules.Defs(UnifiedDiff.Split(AbnfRules.Newlines(src))).value);
  }

  /** readGrammarOf: no grammar where no rules complete the text, a reason that holds where one
      character cannot decide, a format ready to run otherwise. */
  method ReadFormat(src: string, lib: Rules) returns (r: Loaded)
    requires AbnfRules.AllShaped(lib)
    ensures r.NoGrammar? <==> !AbnfRules.Completed(AbnfRules.SourceTable(src), lib)
    ensures r.Undecided? ==> exists rules, start :: RulesOf(AbnfRules.SourceTable(src), lib, rules, start) && Against(rules, r.why)
    ensures r.Usable? <==> exists rules, start :: RulesOf(AbnfRules.SourceTable(src), lib, rules, start) && Decides(rules)
    ensures r.Usable? ==> Ready(r.g) && RulesOf(AbnfRules.SourceTable(src), lib, r.g.rules, r.g.start)
  {
    hide AbnfRules.SourceTable, AbnfRules.Completed, AbnfRules.ReadOf, AbnfRules.GoodTable, RulesOf, Ready, ReadRules, LowerText,
         Analyse.Least, Analyse.OneCharacter, Analyse.ReasonHolds;
    var read := AbnfRules.ReadGrammar(src, lib);
    if read.Refused? {
      NotCompleted(src, lib);
      return NoGrammar;
    }
    SourceGood(src, lib);
    ReadRulesOf(src, lib, read);
    Listed(read.order, read.rules);
    var out := Analyse.Analyse(read.rules, read.order, LowerText(read.start));
    match out
    case Accepted(g) =>
      assert Decides(read.rules);
      r := Usable(g);
    case Refused(why) =>
      assert Against(read.rules, why);
      NotBoth(read.rules, why);
      OnlyRules(src, lib, read.rules, LowerText(read.start));
      r := Undecided(why);
  }

  lemma OnlyRules(src: string, lib: Rules, rules: Rules, start: string)
    requires RulesOf(AbnfRules.SourceTable(src), lib, rules, start)
    ensures forall a, m :: RulesOf(AbnfRules.SourceTable(src), lib, a, m) ==> a == rules
  {
    hide RulesOf, AbnfRules.SourceTable;
    forall a, m | RulesOf(AbnfRules.SourceTable(src), lib, a, m) ensures a == rules {
      RulesUnique(AbnfRules.SourceTable(src), lib, a, rules, m, start);
    }
  }

  lemma NotCompleted(src: string, lib: Rules)
    requires !AbnfRules.Completed(AbnfRules.SourceTable(src), lib)
    ensures forall a, m :: !RulesOf(AbnfRules.SourceTable(src), lib, a, m)
  {
    hide AbnfRules.Completes, LowerText, AbnfRules.SourceTable;
    var t := AbnfRules.SourceTable(src);
    forall a, m ensures !RulesOf(t, lib, a, m) {
      if RulesOf(t, lib, a, m) { StartGiven(src, m); }
    }
  }

  lemma StartGiven(src: string, name: string)
    requires AbnfRules.SourceTable(src).Table? && name in AbnfRules.SourceTable(src).rules
    ensures AbnfRules.SourceTable(src).start != ""
  {
    var t := AbnfRules.SourceTable(src);
    AbnfRules.TableGood(AbnfRules.Defs(UnifiedDiff.Split(AbnfRules.Newlines(src))).value);
    assert name in t.order;
  }

  lemma Listed(order: seq<string>, rules: Rules)
    requires AbnfRules.Listing(order, rules)
    ensures forall n :: n in order <==> n in rules
  {
  }

  // ----- the language

  /** The text is in the language the source defines, with some rules that complete it. */
  ghost predicate InLanguage(t: AbnfRules.Table, lib: Rules, text: Text) {
    t.Table? && exists w :: DerivedIn(t, lib, w, text)
  }

  ghost predicate DerivedIn(t: AbnfRules.Table, lib: Rules, w: Rules, text: Text)
    requires t.Table?
  {
    AbnfRules.Completes(t, lib, w) && LowerText(t.start) in w && Derives(w, w[LowerText(t.start)], text)
  }

  /** Rules that agree where the first have names. */
  ghost predicate Agree(a: Rules, b: Rules) {
    forall n :: n in a ==> n in b && b[n] == a[n] && AbnfRules.Named(a.Keys, a[n])
  }

  lemma {:induction false} AgreeParses(a: Rules, b: Rules, n: Node, t: Tree)
    requires Agree(a, b) && AbnfRules.Named(a.Keys, n)
    ensures Parses(a, n, t) <==> Parses(b, n, t)
    decreases t
  {
    match n
    case Alt(kids) =>
      if t.AltTree? && t.pick < |kids| { AgreeParses(a, b, kids[t.pick], t.t); }
    case Cat(kids) =>
      if t.CatTree? && |t.ts| == |kids| {
        forall i | 0 <= i < |kids| ensures Parses(a, kids[i], t.ts[i]) <==> Parses(b, kids[i], t.ts[i]) { AgreeParses(a, b, kids[i], t.ts[i]); }
      }
    case Rep(kid, _, _) =>
      if t.RepTree? {
        forall i | 0 <= i < |t.ts| ensures Parses(a, kid, t.ts[i]) <==> Parses(b, kid, t.ts[i]) { AgreeParses(a, b, kid, t.ts[i]); }
      }
    case Ref(name) => if t.RefTree? { AgreeParses(a, b, a[name], t.t); }
    case _ =>
  }

  lemma AgreeDerives(a: Rules, b: Rules, n: Node, text: Text)
    requires Agree(a, b) && AbnfRules.Named(a.Keys, n)
    ensures Derives(a, n, text) <==> Derives(b, n, text)
  {
    hide Agree, Parses;
    forall t ensures Parses(a, n, t) <==> Parses(b, n, t) { AgreeParses(a, b, n, t); }
  }

  lemma CompletionsAgree(t: AbnfRules.Table, lib: Rules, rules: Rules, start: string, w: Rules)
    requires RulesOf(t, lib, rules, start) && AbnfRules.Completes(t, lib, w)
    ensures Agree(rules, w) && start in w && w[start] == rules[start]
  {
    hide AbnfRules.Found, AbnfRules.Named;
    forall n | n in rules ensures n in w && w[n] == rules[n] && AbnfRules.Named(rules.Keys, rules[n]) {
      assert AbnfRules.RuleNamed(rules, n);
      assert AbnfRules.RuleNamed(w, n);
    }
  }

  /** What completes the source does not matter: the rules read have its language. */
  lemma LanguageRead(t: AbnfRules.Table, lib: Rules, rules: Rules, start: string, text: Text)
    requires RulesOf(t, lib, rules, start)
    ensures Derives(rules, rules[start], text) <==> InLanguage(t, lib, text)
    ensures t.Table? && (InLanguage(t, lib, text) <==> forall w :: AbnfRules.Completes(t, lib, w) ==> DerivedIn(t, lib, w, text))
  {
    hide AbnfRules.Completes, Derives, LowerText;
    forall w | AbnfRules.Completes(t, lib, w) ensures DerivedIn(t, lib, w, text) <==> Derives(rules, rules[start], text) {
      StartNamed(t, lib, rules, start);
      CompletionsAgree(t, lib, rules, start, w);
      AgreeDerives(rules, w, rules[start], text);
    }
    assert DerivedIn(t, lib, rules, text) <==> Derives(rules, rules[start], text);
  }

  lemma StartNamed(t: AbnfRules.Table, lib: Rules, rules: Rules, start: string)
    requires RulesOf(t, lib, rules, start)
    ensures start in rules && AbnfRules.Named(rules.Keys, rules[start])
  {
    assert AbnfRules.RuleNamed(rules, start);
  }

  /** From the grammar's text to the verdict: a text is matched exactly where it is in the language
      the source defines. */
  method Matches(src: string, lib: Rules, text: Text) returns (r: Loaded, stop: int, ok: bool)
    requires AbnfRules.AllShaped(lib)
    ensures r.Usable? && ok ==> (stop == -1 <==> InLanguage(AbnfRules.SourceTable(src), lib, text))
    ensures r.Usable? ==> RulesOf(AbnfRules.SourceTable(src), lib, r.g.rules, r.g.start) && Ready(r.g) && (ok <==> InBound(r.g, text))
    ensures r.Usable? ==> Ready(r.g) && (Pace(r.g) * (|text| + 1) <= 1000000 ==> ok)
    ensures (r.NoGrammar? <==> !AbnfRules.Completed(AbnfRules.SourceTable(src), lib)) && (ok ==> r.Usable?)
  {
    hide AbnfRules.SourceTable, AbnfRules.Completed, Ready, InLanguage, Derives, Pace;
    stop, ok := -1, false;
    r := ReadFormat(src, lib);
    if r.Usable? {
      stop, ok := RecogniseFormat(r.g, text);
      LanguageRead(AbnfRules.SourceTable(src), lib, r.g.rules, r.g.start, text);
    }
  }

  /** Definitions written out and read: what is then decided is the language of the definitions. */
  lemma WrittenLanguage(ds: seq<AbnfRules.Def>, lib: Rules, rules: Rules, start: string, text: Text)
    requires GoodDefs(ds) && ds != []
    ensures forall i :: 0 <= i < |ds| ==> Readable(ds[i].node)
    ensures RulesOf(AbnfRules.SourceTable(SourceOf(ds)), lib, rules, start)
            ==> DefTable(ds).Table? && start in rules && (Derives(rules, rules[start], text) <==> InLanguage(DefTable(ds), lib, text))
  {
    hide RulesOf, InLanguage, Derives, GoodDefs, DefTable, AbnfRules.SourceTable;
    GoodReadable(ds);
    SourceBack(ds);
    if RulesOf(DefTable(ds), lib, rules, start) {
      TableIs(DefTable(ds), lib, rules, start);
      LanguageRead(DefTable(ds), lib, rules, start, text);
    }
  }

  /** So it is for definitions laid out and spelled in any way. */
  lemma SpelledLanguage(src: string, ds: seq<AbnfRules.Def>, lib: Rules, rules: Rules, start: string, text: Text)
    requires AbnfLayout.SourceSpelled(UnifiedDiff.Split(AbnfRules.Newlines(src)), ds) && RulesOf(AbnfRules.SourceTable(src), lib, rules, start)
    ensures AbnfLayout.InTurn(ds) && AbnfLayout.IsTable(ds, DefTable(ds)) && start in rules
    ensures Derives(rules, rules[start], text) <==> InLanguage(DefTable(ds), lib, text)
  {
    hide RulesOf, InLanguage, Derives, DefTable, AbnfRules.SourceTable, AbnfLayout.SourceSpelled, AbnfLayout.InTurn, AbnfLayout.IsTable;
    AbnfLayout.LayoutRead(src, ds);
    TableIs(DefTable(ds), lib, rules, start);
    LanguageRead(DefTable(ds), lib, rules, start, text);
  }

  lemma TableIs(t: AbnfRules.Table, lib: Rules, rules: Rules, start: string)
    requires RulesOf(t, lib, rules, start)
    ensures t.Table? && start in rules
  {
  }
}
