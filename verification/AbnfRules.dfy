/**
 Reading a grammar (fReadRules, go/formatgrammar.go:122-262): its lines, its rules, and the
 rules of appendix B.1 of RFC 5234 and of the library it refers to.  What is read is closed: it
 is what the analysis asks for.
 */
module AbnfRules {
  import opened Options
  import opened Ranges
  import opened Grammar
  import opened UnifiedDiff
  import opened AbnfText
  import opened AbnfShown
  import opened AbnfBack

  /** A grammar as read, or a refusal. */
  datatype Reading = Whole(rules: Rules, order: seq<string>, start: string) | Refused

  const CORE_NAMES: set<string> :=
    {"alpha", "bit", "char", "cr", "crlf", "ctl", "digit", "dquote", "hexdig", "htab", "lf", "octet", "sp", "vchar", "wsp", "lwsp"}

  const WSP: Node := Cls([Range(0x09, 0x09), Range(0x20, 0x20)])

  const CRLF: Node := Str([0x0d, 0x0a], false)

  /** The rules of appendix B.1. */
  function Core(name: string): Node
    requires name in CORE_NAMES
  {
    if name == "alpha" then Cls([Range(0x41, 0x5a), Range(0x61, 0x7a)])
    else if name == "bit" then Cls([Range(0x30, 0x31)])
    else if name == "char" then Cls([Range(0x01, 0x7f)])
    else if name == "cr" then Cls([Range(0x0d, 0x0d)])
    else if name == "crlf" then CRLF
    else if name == "ctl" then Cls([Range(0x00, 0x1f), Range(0x7f, 0x7f)])
    else if name == "digit" then Cls([Range(0x30, 0x39)])
    else if name == "dquote" then Cls([Range(0x22, 0x22)])
    else if name == "hexdig" then Cls([Range(0x30, 0x39), Range(0x41, 0x46), Range(0x61, 0x66)])
    else if name == "htab" then Cls([Range(0x09, 0x09)])
    else if name == "lf" then Cls([Range(0x0a, 0x0a)])
    else if name == "octet" then Cls([Range(0x00, 0xff)])
    else if name == "sp" then Cls([Range(0x20, 0x20)])
    else if name == "vchar" then Cls([Range(0x21, 0x7e)])
    else if name == "wsp" then WSP
    else Rep(Alt([WSP, Cat([CRLF, WSP])]), 0, -1)
  }

  // ----- shape and names

  /** As ReadNode, but for the names. */
  predicate Shaped(n: Node) {
    match n
    case Alt(kids) => kids != [] && forall i :: 0 <= i < |kids| ==> Shaped(kids[i])
    case Cat(kids) => forall i :: 0 <= i < |kids| ==> Shaped(kids[i])
    case Rep(kid, min, max) => (max < 0 || min <= max) && Shaped(kid)
    case Ref(_) => true
    case Str(cps, _) => cps != [] && forall i :: 0 <= i < |cps| ==> 0 <= cps[i] <= TOP
    case Cls(chars) =>
      && chars != []
      && (forall i :: 0 <= i < |chars| ==> 0 <= chars[i].lo <= chars[i].hi <= TOP)
      && (forall i, j :: 0 <= i < j < |chars| ==> chars[i].hi + 1 < chars[j].lo)
  }

  /** Every name in the node is one of these. */
  predicate Named(names: set<string>, n: Node) {
    match n
    case Alt(kids) => forall i :: 0 <= i < |kids| ==> Named(names, kids[i])
    case Cat(kids) => forall i :: 0 <= i < |kids| ==> Named(names, kids[i])
    case Rep(kid, _, _) => Named(names, kid)
    case Ref(name) => name in names
    case _ => true
  }

  lemma {:induction false} ShapedNamed(rules: Rules, n: Node)
    ensures ReadNode(rules, n) <==> Shaped(n) && Named(rules.Keys, n)
  {
    match n
    case Alt(kids) => forall i | 0 <= i < |kids| ensures ReadNode(rules, kids[i]) <==> Shaped(kids[i]) && Named(rules.Keys, kids[i]) { ShapedNamed(rules, kids[i]); }
    case Cat(kids) => forall i | 0 <= i < |kids| ensures ReadNode(rules, kids[i]) <==> Shaped(kids[i]) && Named(rules.Keys, kids[i]) { ShapedNamed(rules, kids[i]); }
    case Rep(kid, _, _) => ShapedNamed(rules, kid);
    case _ =>
  }

  lemma {:induction false} NamedMore(a: set<string>, b: set<string>, n: Node)
    requires Named(a, n) && a <= b
    ensures Named(b, n)
  {
    match n
    case Alt(kids) => forall i | 0 <= i < |kids| ensures Named(b, kids[i]) { NamedMore(a, b, kids[i]); }
    case Cat(kids) => forall i | 0 <= i < |kids| ensures Named(b, kids[i]) { NamedMore(a, b, kids[i]); }
    case Rep(kid, _, _) => NamedMore(a, b, kid);
    case _ =>
  }

  lemma {:induction false} ReadableShaped(n: Node)
    requires Readable(n)
    ensures Shaped(n)
  {
    match n
    case Alt(kids) => forall i | 0 <= i < |kids| ensures Shaped(kids[i]) { ReadableShaped(kids[i]); }
    case Cat(kids) => forall i | 0 <= i < |kids| ensures Shaped(kids[i]) { ReadableShaped(kids[i]); }
    case Rep(kid, _, _) => ReadableShaped(kid);
    case _ =>
  }

  ghost predicate AllShaped(rules: Rules) {
    forall name :: name in rules ==> Shaped(rules[name])
  }

  lemma WspShaped()
    ensures Shaped(WSP) && Shaped(CRLF)
  {
  }

  lemma LwspShaped()
    ensures Shaped(Rep(Alt([WSP, Cat([CRLF, WSP])]), 0, -1))
  {
    WspShaped();
    var line := Cat([CRLF, WSP]);
    assert Shaped(line);
  }

  lemma OneShaped(a: int, b: int)
    requires 0 <= a <= b <= TOP
    ensures Shaped(Cls([Range(a, b)]))
  {
  }

  lemma TwoShaped(a: int, b: int, c: int, d: int)
    requires 0 <= a <= b && b + 1 < c <= d <= TOP
    ensures Shaped(Cls([Range(a, b), Range(c, d)]))
  {
  }

  lemma ThreeShaped(a: int, b: int, c: int, d: int, e: int, f: int)
    requires 0 <= a <= b && b + 1 < c <= d && d + 1 < e <= f <= TOP
    ensures Shaped(Cls([Range(a, b), Range(c, d), Range(e, f)]))
  {
  }

  lemma CoreShaped(name: string)
    requires name in CORE_NAMES
    ensures Shaped(Core(name))
  {
    hide Shaped;
    WspShaped();
    LwspShaped();
    TwoShaped(0x41, 0x5a, 0x61, 0x7a);
    OneShaped(0x30, 0x31);
    OneShaped(0x01, 0x7f);
    OneShaped(0x0d, 0x0d);
    TwoShaped(0x00, 0x1f, 0x7f, 0x7f);
    OneShaped(0x30, 0x39);
    OneShaped(0x22, 0x22);
    ThreeShaped(0x30, 0x39, 0x41, 0x46, 0x61, 0x66);
    OneShaped(0x09, 0x09);
    OneShaped(0x0a, 0x0a);
    OneShaped(0x00, 0xff);
    OneShaped(0x20, 0x20);
    OneShaped(0x21, 0x7e);
  }

  // ----- lines

  /** How much of a line stands before a comment, from inside a quote or not. */
  function Kept(s: string, quote: char): (k: nat)
    ensures k <= |s|
  {
    if s == "" || (quote == '\0' && s[0] == ';') then 0 else 1 + Kept(s[1..], QuoteOn(s[0], quote))
  }

  function QuoteOn(c: char, quote: char): char {
    if quote != '\0' then if c == quote then '\0' else quote
    else if c == '"' then '"'
    else if c == '<' then '>'
    else '\0'
  }

  /** fUncomment. */
  function Uncomment(line: string): string {
    line[..Kept(line, '\0')]
  }

  function TrimRight(s: string): string {
    if s != "" && Space(s[|s| - 1]) then TrimRight(s[..|s| - 1]) else s
  }

  /** fTrim. */
  function Trim(s: string): string {
    TrimRight(Spaces(s))
  }

  /** Every line ending as a newline. */
  function Newlines(s: string): string {
    if s == "" then ""
    else if s[0] == '\r' then "\n" + Newlines(if 1 < |s| && s[1] == '\n' then s[2..] else s[1..])
    else [s[0]] + Newlines(s[1..])
  }

  /** The definitions a grammar's lines make: a line that begins with space goes on with the one before. */
  function Defs(lines: seq<string>): Option<seq<string>> {
    if lines == [] then Some([])
    else
      var before := Defs(lines[..|lines| - 1]);
      var text := Uncomment(lines[|lines| - 1]);
      if before.None? || Spaces(text) == "" then before
      else if !Space(text[0]) then Some(before.value + [Trim(text)])
      else if before.value == [] then None
      else Some(before.value[|before.value| - 1 := before.value[|before.value| - 1] + " " + Trim(text)])
  }

  method DefsLoop(lines: seq<string>) returns (defs: Option<seq<string>>)
    ensures defs == Defs(lines)
  {
    hide Uncomment, Trim, Spaces;
    var out: seq<string> := [];
    for k := 0 to |lines|
      invariant Defs(lines[..k]) == Some(out)
    {
      DefsStep(lines, k);
      var text := Uncomment(lines[k]);
      if Spaces(text) == "" { continue; }
      SpacesText(text);
      if Space(text[0]) {
        if |out| == 0 {
          DefsNone(lines, k + 1);
          return None;
        }
        out := out[|out| - 1 := out[|out| - 1] + " " + Trim(text)];
      } else {
        out := out + [Trim(text)];
      }
    }
    assert lines[..|lines|] == lines;
    return Some(out);
  }

  lemma SpacesText(text: string)
    requires Spaces(text) != ""
    ensures text != ""
  {
  }

  lemma DefsStep(lines: seq<string>, k: nat)
    requires k < |lines|
    ensures lines[..k + 1][..k] == lines[..k] && lines[..k + 1][k] == lines[k]
  {
  }

  /** A refusal stands whatever lines follow. */
  lemma {:induction false} DefsNone(lines: seq<string>, k: nat)
    requires k <= |lines| && Defs(lines[..k]).None?
    ensures Defs(lines).None?
    decreases |lines|
  {
    if k < |lines| {
      assert lines[..|lines| - 1][..k] == lines[..k];
      DefsNone(lines[..|lines| - 1], k);
    } else {
      assert lines[..k] == lines;
    }
  }

  /** A definition: the name as it is written, whether it extends, and its elements. */
  datatype Def = Def(name: string, more: bool, node: Node)

  /** A definition's text in its parts (fRuleLine), its elements read. */
  function ReadDef(def: string): Option<Def> {
    var k := if def != "" && Letter(def[0]) then NameLead(def) else 0;
    if k == 0 then None
    else
      var name, behind := def[..k], Spaces(def[k..]);
      if behind == "" || behind[0] != '=' then None
      else
        var more := 1 < |behind| && behind[1] == '/';
        var out := Elements(Spaces(behind[if more then 2 else 1..]));
        if out.Bad? then None else Some(Def(name, more, out.node))
  }

  // ----- rules

  /** fAlts. */
  function Alternates(n: Node): seq<Node> {
    if n.Alt? then n.kids else [n]
  }

  datatype Table = Table(rules: Rules, order: seq<string>, start: string) | NoTable

  /** One definition added. */
  function AddDef(t: Table, d: Def): Table
    requires t.Table?
  {
    var name := LowerText(d.name);
    if !d.more then
      if name in t.rules then NoTable
      else Table(t.rules[name := d.node], t.order + [name], if t.start == "" then d.name else t.start)
    else if name !in t.rules then NoTable
    else Table(t.rules[name := Alt(Alternates(t.rules[name]) + Alternates(d.node))], t.order, t.start)
  }

  predicate Once(order: seq<string>) {
    forall i, j :: 0 <= i < j < |order| ==> order[i] != order[j]
  }

  /** A table of shaped rules, in an order that has each once and starts with the start. */
  ghost predicate GoodTable(t: Table) {
    && t.Table? && AllShaped(t.rules) && Listing(t.order, t.rules)
    && (t.start == "" <==> t.order == []) && (t.order != [] ==> t.order[0] == LowerText(t.start))
  }

  /** The order has each rule once. */
  ghost predicate Listing(order: seq<string>, rules: Rules) {
    Once(order) && forall n :: n in order <==> n in rules
  }

  lemma AlternatesShaped(n: Node)
    requires Shaped(n)
    ensures Alternates(n) != [] && forall i :: 0 <= i < |Alternates(n)| ==> Shaped(Alternates(n)[i])
  {
  }

  lemma JoinedShaped(a: Node, b: Node)
    requires Shaped(a) && Shaped(b)
    ensures Shaped(Alt(Alternates(a) + Alternates(b)))
  {
    AlternatesShaped(a);
    AlternatesShaped(b);
    var kids := Alternates(a) + Alternates(b);
    forall i | 0 <= i < |kids| ensures Shaped(kids[i]) {
      if i < |Alternates(a)| { assert kids[i] == Alternates(a)[i]; } else { assert kids[i] == Alternates(b)[i - |Alternates(a)|]; }
    }
  }

  lemma ListMore(order: seq<string>, rules: Rules, name: string, n: Node)
    requires Listing(order, rules) && name !in rules
    ensures Listing(order + [name], rules[name := n])
  {
  }

  lemma ShapedMore(rules: Rules, name: string, n: Node)
    requires AllShaped(rules) && Shaped(n)
    ensures AllShaped(rules[name := n])
  {
    hide Shaped;
  }

  lemma AddGood(t: Table, d: Def)
    requires GoodTable(t) && Shaped(d.node) && AddDef(t, d).Table? && d.name != ""
    ensures GoodTable(AddDef(t, d)) && AddDef(t, d).start != ""
  {
    hide Shaped, AllShaped, Listing, LowerText;
    var name := LowerText(d.name);
    if d.more {
      Held(t, name);
      JoinedShaped(t.rules[name], d.node);
      var node := Alt(Alternates(t.rules[name]) + Alternates(d.node));
      ShapedMore(t.rules, name, node);
      SameListing(t.order, t.rules, name, node);
    } else {
      ListMore(t.order, t.rules, name, d.node);
      ShapedMore(t.rules, name, d.node);
    }
  }

  lemma Held(t: Table, name: string)
    requires GoodTable(t) && name in t.rules
    ensures Shaped(t.rules[name]) && t.order != []
  {
    assert name in t.order;
  }

  lemma SameListing(order: seq<string>, rules: Rules, name: string, n: Node)
    requires Listing(order, rules) && name in rules
    ensures Listing(order, rules[name := n])
  {
  }

  /** The table the definitions make. */
  function TableOf(defs: seq<string>): Table {
    if defs == [] then Table(map[], [], "")
    else
      var before := TableOf(defs[..|defs| - 1]);
      var d := ReadDef(defs[|defs| - 1]);
      if before.NoTable? || d.None? then NoTable else AddDef(before, d.value)
  }

  lemma DefShaped(def: string)
    requires ReadDef(def).Some?
    ensures Shaped(ReadDef(def).value.node) && ReadDef(def).value.name != ""
  {
    hide NameLead, Spaces, Elements, Shaped;
    var k := NameLead(def);
    var behind := Spaces(def[k..]);
    var more := 1 < |behind| && behind[1] == '/';
    var text := Spaces(behind[if more then 2 else 1..]);
    ElementsReadable(text);
    ReadableOf(Elements(text).node, 0, 0);
    ReadableShaped(Elements(text).node);
  }

  lemma {:induction false} TableGood(defs: seq<string>)
    requires TableOf(defs).Table?
    ensures GoodTable(TableOf(defs)) && (defs != [] ==> TableOf(defs).start != "")
  {
    hide GoodTable, ReadDef, Shaped, AddDef;
    if defs == [] {
      EmptyTable();
    } else {
      TableGood(defs[..|defs| - 1]);
      DefShaped(defs[|defs| - 1]);
      AddGood(TableOf(defs[..|defs| - 1]), ReadDef(defs[|defs| - 1]).value);
    }
  }

  lemma EmptyTable()
    ensures GoodTable(Table(map[], [], ""))
  {
  }

  method TableLoop(defs: seq<string>) returns (t: Table)
    ensures t == TableOf(defs)
  {
    hide ReadDef, AddDef;
    t := Table(map[], [], "");
    for k := 0 to |defs|
      invariant t.Table? && t == TableOf(defs[..k])
    {
      assert defs[..k + 1][..k] == defs[..k] && defs[..k + 1][k] == defs[k];
      var d := ReadDef(defs[k]);
      if d.None? {
        TableNone(defs, k + 1);
        return NoTable;
      }
      t := AddDef(t, d.value);
      if t.NoTable? {
        TableNone(defs, k + 1);
        return;
      }
    }
    assert defs[..|defs|] == defs;
  }

  lemma {:induction false} TableNone(defs: seq<string>, k: nat)
    requires k <= |defs| && TableOf(defs[..k]).NoTable?
    ensures TableOf(defs).NoTable?
    decreases |defs|
  {
    if k < |defs| {
      assert defs[..|defs| - 1][..k] == defs[..k];
      TableNone(defs[..|defs| - 1], k);
    } else {
      assert defs[..k] == defs;
    }
  }

  /** The table of a grammar's own rules. */
  function SourceTable(src: string): Table {
    var defs := Defs(Split(Newlines(src)));
    if defs.None? then NoTable else TableOf(defs.value)
  }

  // ----- the rules referred to

  /** A rule of appendix B.1 of RFC 5234, or one of the library. */
  function Found(lib: Rules, name: string): Option<Node> {
    if name in CORE_NAMES then Some(Core(name)) else if name in lib then Some(lib[name]) else None
  }

  /** The rules now are those before and, in order behind them, rules found. */
  ghost predicate Grown(lib: Rules, rules0: Rules, order0: seq<string>, rules: Rules, order: seq<string>) {
    && rules0.Keys <= rules.Keys && (forall n :: n in rules0 ==> rules[n] == rules0[n])
    && (forall n :: n in rules && n !in rules0 ==> Found(lib, n) == Some(rules[n]))
    && order0 <= order && Listing(order, rules) && AllShaped(rules)
  }

  lemma GrownOn(lib: Rules, r0: Rules, o0: seq<string>, r1: Rules, o1: seq<string>, r2: Rules, o2: seq<string>)
    requires Grown(lib, r0, o0, r1, o1) && Grown(lib, r1, o1, r2, o2)
    ensures Grown(lib, r0, o0, r2, o2)
  {
    hide Listing, AllShaped, Found;
  }

  lemma GrownNone(lib: Rules, rules: Rules, order: seq<string>)
    requires Listing(order, rules) && AllShaped(rules)
    ensures Grown(lib, rules, order, rules, order)
  {
  }

  lemma GrownOne(lib: Rules, rules: Rules, order: seq<string>, name: string)
    requires Listing(order, rules) && AllShaped(rules) && AllShaped(lib) && name !in rules && Found(lib, name).Some?
    ensures Shaped(Found(lib, name).value)
    ensures Grown(lib, rules, order, rules[name := Found(lib, name).value], order + [name])
  {
    hide Shaped, Core;
    if name in CORE_NAMES { CoreShaped(name); }
    ListMore(order, rules, name, Found(lib, name).value);
  }

  /** A rule's names, of those the rules now have. */
  ghost predicate RuleNamed(rules: Rules, name: string)
    requires name in rules
  {
    Named(rules.Keys, rules[name])
  }

  /** Every rule added has its names. */
  ghost predicate AddedNamed(rules0: Rules, rules: Rules) {
    forall n :: n in rules && n !in rules0 ==> RuleNamed(rules, n)
  }

  lemma AddedOn(lib: Rules, r0: Rules, o0: seq<string>, r1: Rules, o1: seq<string>, r2: Rules, o2: seq<string>)
    requires Grown(lib, r0, o0, r1, o1) && Grown(lib, r1, o1, r2, o2) && AddedNamed(r0, r1) && AddedNamed(r1, r2)
    ensures AddedNamed(r0, r2)
  {
    hide Named, Listing, AllShaped, Found;
    forall n | n in r2 && n !in r0 ensures RuleNamed(r2, n) {
      if n in r1 {
        assert RuleNamed(r1, n);
        NamedMore(r1.Keys, r2.Keys, r1[n]);
      }
    }
  }

  /** What referring may still add. */
  ghost function Open(lib: Rules, rules: Rules): set<string> {
    CORE_NAMES + lib.Keys - rules.Keys
  }

  lemma OpenLess(lib: Rules, r0: Rules, o0: seq<string>, r1: Rules, o1: seq<string>)
    requires Grown(lib, r0, o0, r1, o1)
    ensures Open(lib, r1) < Open(lib, r0) || Open(lib, r1) == Open(lib, r0)
  {
  }

  lemma OpenFalls(lib: Rules, rules: Rules, name: string, n: Node)
    requires name !in rules && Found(lib, name).Some?
    ensures Open(lib, rules[name := n]) < Open(lib, rules)
  {
    assert name in Open(lib, rules) && name !in Open(lib, rules[name := n]);
  }

  // ----- what a grammar refers to, whatever order it is found in

  /** Rules that have each name their rules use, each its own, of appendix B.1 or of the library. */
  ghost predicate Closed(lib: Rules, own: Rules, w: Rules) {
    forall n :: n in w ==> RuleNamed(w, n) && (if n in own then w[n] == own[n] else Found(lib, n) == Some(w[n]))
  }

  /** No closed rules have the node's names. */
  ghost predicate Lost(lib: Rules, own: Rules, x: Node) {
    forall w :: Closed(lib, own, w) ==> !Named(w.Keys, x)
  }

  /** Closed rules that have the names of the node and these rules have those rules too. */
  ghost predicate Least(lib: Rules, own: Rules, x: Node, rules0: Rules, rules: Rules) {
    forall w :: Closed(lib, own, w) && Named(w.Keys, x) && rules0.Keys <= w.Keys ==> rules.Keys <= w.Keys
  }

  lemma LostName(lib: Rules, own: Rules, name: string)
    requires name !in own && Found(lib, name).None?
    ensures Lost(lib, own, Ref(name))
  {
    hide Found;
  }

  /** What a name is found as is lost or least where the name is. */
  lemma FoundOn(lib: Rules, own: Rules, rules0: Rules, name: string, rules: Rules)
    requires name !in own && Found(lib, name).Some?
    ensures Lost(lib, own, Found(lib, name).value) ==> Lost(lib, own, Ref(name))
    ensures var node := Found(lib, name).value;
            Least(lib, own, node, rules0[name := node], rules) ==> Least(lib, own, Ref(name), rules0, rules)
  {
    hide Found;
    var node := Found(lib, name).value;
    forall w | Closed(lib, own, w) && Named(w.Keys, Ref(name)) ensures Named(w.Keys, node) {
      assert name in w && RuleNamed(w, name);
    }
  }

  lemma KidOf(names: set<string>, x: Node, i: nat)
    requires i < |Kids(x)| && Named(names, x)
    ensures Named(names, Kids(x)[i])
  {
  }

  lemma KidOn(lib: Rules, own: Rules, x: Node, i: nat, rules0: Rules, r1: Rules, rules: Rules)
    requires i < |Kids(x)|
    ensures Lost(lib, own, Kids(x)[i]) ==> Lost(lib, own, x)
    ensures Least(lib, own, x, rules0, r1) && Least(lib, own, Kids(x)[i], r1, rules) ==> Least(lib, own, x, rules0, rules)
  {
    hide Closed, Named;
    forall w: Rules | Named(w.Keys, x) ensures Named(w.Keys, Kids(x)[i]) { KidOf(w.Keys, x, i); }
  }

  /** refer: the rules a node names, and those they name; it fails only where no closed rules have
      the node's names, and what it adds any closed rules have. */
  method Refer(x: Node, lib: Rules, ghost own: Rules, rules0: Rules, order0: seq<string>)
    returns (ok: bool, rules: Rules, order: seq<string>)
    requires Listing(order0, rules0) && AllShaped(rules0) && AllShaped(lib) && own.Keys <= rules0.Keys
    ensures ok ==> Grown(lib, rules0, order0, rules, order) && AddedNamed(rules0, rules) && Named(rules.Keys, x)
    ensures ok ==> Least(lib, own, x, rules0, rules)
    ensures !ok ==> Lost(lib, own, x)
    decreases Open(lib, rules0), x
  {
    hide Listing, AllShaped, Found, Grown, AddedNamed, Open, Named, Lost, Least;
    rules, order := rules0, order0;
    GrownNone(lib, rules0, order0);
    AddedNone(rules0);
    ok := true;
    if x.Ref? && x.name !in rules {
      var found := Found(lib, x.name);
      if found.None? {
        LostName(lib, own, x.name);
        return false, rules, order;
      }
      GrownOne(lib, rules0, order0, x.name);
      OpenFalls(lib, rules0, x.name, found.value);
      rules, order := rules[x.name := found.value], order + [x.name];
      ghost var r1, o1 := rules, order;
      GrownKnown(lib, rules0, order0, r1, o1);
      ok, rules, order := Refer(found.value, lib, own, rules, order);
      FoundOn(lib, own, rules0, x.name, rules);
      if !ok { return; }
      ReferredOne(lib, rules0, order0, x.name, rules, order);
      return;
    }
    var kids := Kids(x);
    LeastNone(lib, own, x, rules0);
    for i := 0 to |kids|
      invariant ok && Grown(lib, rules0, order0, rules, order) && AddedNamed(rules0, rules)
      invariant Least(lib, own, x, rules0, rules)
      invariant forall k :: 0 <= k < i ==> Named(rules.Keys, kids[k])
    {
      GrownKnown(lib, rules0, order0, rules, order);
      OpenLess(lib, rules0, order0, rules, order);
      KidSmaller(x, i);
      GrownKeys(lib, rules0, order0, rules, order);
      ghost var r1, o1 := rules, order;
      ok, rules, order := Refer(kids[i], lib, own, rules, order);
      KidOn(lib, own, x, i, rules0, r1, rules);
      if !ok { return; }
      GrownOn(lib, rules0, order0, r1, o1, rules, order);
      AddedOn(lib, rules0, order0, r1, o1, rules, order);
      forall k | 0 <= k < i ensures Named(rules.Keys, kids[k]) { GrownKeys(lib, r1, o1, rules, order); NamedMore(r1.Keys, rules.Keys, kids[k]); }
    }
    GrownKeys(lib, rules0, order0, rules, order);
    KidsNamed(rules.Keys, x);
  }

  lemma LeastNone(lib: Rules, own: Rules, x: Node, rules: Rules)
    ensures Least(lib, own, x, rules, rules)
  {
  }

  lemma AddedNone(rules: Rules)
    ensures AddedNamed(rules, rules)
  {
  }

  lemma GrownKnown(lib: Rules, r0: Rules, o0: seq<string>, r1: Rules, o1: seq<string>)
    requires Grown(lib, r0, o0, r1, o1)
    ensures Listing(o1, r1) && AllShaped(r1)
  {
  }

  lemma GrownKeys(lib: Rules, r0: Rules, o0: seq<string>, r1: Rules, o1: seq<string>)
    requires Grown(lib, r0, o0, r1, o1)
    ensures r0.Keys <= r1.Keys && o0 <= o1 && forall n :: n in r0 ==> r1[n] == r0[n]
  {
  }

  lemma KidSmaller(x: Node, i: nat)
    requires i < |Kids(x)|
    ensures Kids(x)[i] < x
  {
  }

  lemma KidsNamed(names: set<string>, x: Node)
    requires x.Ref? ==> x.name in names
    requires forall k :: 0 <= k < |Kids(x)| ==> Named(names, Kids(x)[k])
    ensures Named(names, x)
  {
    if x.Rep? { assert Kids(x)[0] == x.kid; }
    if x.Alt? || x.Cat? { assert Kids(x) == x.kids; }
  }

  /** A rule found and added, with all it names. */
  lemma ReferredOne(lib: Rules, rules0: Rules, order0: seq<string>, name: string, rules: Rules, order: seq<string>)
    requires Listing(order0, rules0) && AllShaped(rules0) && AllShaped(lib) && name !in rules0 && Found(lib, name).Some?
    requires var r1, o1 := rules0[name := Found(lib, name).value], order0 + [name];
             Grown(lib, r1, o1, rules, order) && AddedNamed(r1, rules) && Named(rules.Keys, Found(lib, name).value)
    ensures Grown(lib, rules0, order0, rules, order) && AddedNamed(rules0, rules) && Named(rules.Keys, Ref(name))
  {
    hide Listing, AllShaped, Found;
    var r1, o1 := rules0[name := Found(lib, name).value], order0 + [name];
    GrownOne(lib, rules0, order0, name);
    GrownOn(lib, rules0, order0, r1, o1, rules, order);
    assert name in r1 && rules[name] == Found(lib, name).value;
    forall n | n in rules && n !in rules0 ensures RuleNamed(rules, n) {
      if n != name { assert n !in r1; }
    }
  }

  // ----- the grammar

  /** A grammar some closed rules complete: its lines make a table of one rule or more. */
  ghost predicate Completed(t: Table, lib: Rules) {
    t.Table? && t.start != "" && exists w :: Completes(t, lib, w)
  }

  ghost predicate Completes(t: Table, lib: Rules, w: Rules)
    requires t.Table?
  {
    t.rules.Keys <= w.Keys && Closed(lib, t.rules, w)
  }

  /** What a grammar is read as: its own rules, and behind them no more than those referred to. */
  ghost predicate ReadOf(t: Table, lib: Rules, r: Reading) {
    && t.Table? && r.Whole? && Grown(lib, t.rules, t.order, r.rules, r.order) && r.start == t.start
    && Completes(t, lib, r.rules) && forall w :: Completes(t, lib, w) ==> r.rules.Keys <= w.Keys
  }

  lemma LostRule(t: Table, lib: Rules, name: string)
    requires t.Table? && name in t.rules && Lost(lib, t.rules, t.rules[name])
    ensures !Completed(t, lib)
  {
    OwnNamed(t, lib, name);
  }

  lemma OwnNamed(t: Table, lib: Rules, name: string)
    requires t.Table? && name in t.rules
    ensures forall w :: Completes(t, lib, w) ==> Named(w.Keys, t.rules[name])
  {
    hide Found, Named;
    forall w | Completes(t, lib, w) ensures Named(w.Keys, t.rules[name]) {
      assert name in w && RuleNamed(w, name);
    }
  }

  /** Rules no completion is without. */
  ghost predicate InAll(t: Table, lib: Rules, rules: Rules)
    requires t.Table?
  {
    forall w :: Completes(t, lib, w) ==> rules.Keys <= w.Keys
  }

  lemma LeastRule(t: Table, lib: Rules, name: string, r1: Rules, rules: Rules)
    requires t.Table? && name in t.rules && InAll(t, lib, r1) && Least(lib, t.rules, t.rules[name], r1, rules)
    ensures InAll(t, lib, rules)
  {
    OwnNamed(t, lib, name);
  }

  lemma OwnInAll(t: Table, lib: Rules)
    requires t.Table?
    ensures InAll(t, lib, t.rules)
  {
  }

  lemma WholeCompletes(lib: Rules, t: Table, rules: Rules, order: seq<string>)
    requires GoodTable(t) && Grown(lib, t.rules, t.order, rules, order) && AddedNamed(t.rules, rules)
    requires forall k :: 0 <= k < |t.order| ==> t.order[k] in t.rules && Named(rules.Keys, t.rules[t.order[k]])
    ensures Completes(t, lib, rules)
  {
    hide Found, Named, Shaped;
    forall n | n in rules ensures RuleNamed(rules, n) && (if n in t.rules then rules[n] == t.rules[n] else Found(lib, n) == Some(rules[n])) {
      if n in t.rules { var k :| 0 <= k < |t.order| && t.order[k] == n; }
    }
  }

  /** One rule of the table referred from. */
  method ReferRule(t: Table, lib: Rules, i: nat, rules0: Rules, order0: seq<string>)
    returns (ok: bool, rules: Rules, order: seq<string>)
    requires t.Table? && GoodTable(t) && AllShaped(lib) && i < |t.order| && Along(t, lib, i, rules0, order0)
    ensures ok ==> Along(t, lib, i + 1, rules, order)
    ensures !ok ==> !Completed(t, lib)
  {
    hide Listing, AllShaped, Found, Grown, AddedNamed, Named, GoodTable, InAll, Lost, Least, Completed;
    GrownKnown(lib, t.rules, t.order, rules0, order0);
    GrownKeys(lib, t.rules, t.order, rules0, order0);
    ListedAt(t, i);
    ok, rules, order := Refer(t.rules[t.order[i]], lib, t.rules, rules0, order0);
    if !ok {
      LostRule(t, lib, t.order[i]);
      return;
    }
    GrownKeys(lib, rules0, order0, rules, order);
    GrownOn(lib, t.rules, t.order, rules0, order0, rules, order);
    AddedOn(lib, t.rules, t.order, rules0, order0, rules, order);
    LeastRule(t, lib, t.order[i], rules0, rules);
    forall k | 0 <= k < i ensures Named(rules.Keys, t.rules[t.order[k]]) { NamedMore(rules0.Keys, rules.Keys, t.rules[t.order[k]]); }
  }

  /** The first rules of the table have been referred from. */
  ghost predicate Along(t: Table, lib: Rules, i: nat, rules: Rules, order: seq<string>)
    requires t.Table? && i <= |t.order|
  {
    && Grown(lib, t.rules, t.order, rules, order) && AddedNamed(t.rules, rules) && InAll(t, lib, rules)
    && forall k :: 0 <= k < i ==> t.order[k] in t.rules && Named(rules.Keys, t.rules[t.order[k]])
  }

  lemma AlongNone(t: Table, lib: Rules)
    requires GoodTable(t)
    ensures Along(t, lib, 0, t.rules, t.order)
  {
    TableKnown(t);
    GrownNone(lib, t.rules, t.order);
    AddedNone(t.rules);
    OwnInAll(t, lib);
  }

  /** All referred from: the rules are closed, shaped and the fewest. */
  lemma AlongAll(t: Table, lib: Rules, rules: Rules, order: seq<string>)
    requires t.Table? && GoodTable(t) && t.start != "" && Along(t, lib, |t.order|, rules, order)
    ensures ReadOf(t, lib, Whole(rules, order, t.start)) && ReadRules(rules) && Listing(order, rules) && Completed(t, lib)
    ensures order != [] && order[0] == LowerText(t.start) && LowerText(t.start) in rules && AllShaped(rules)
  {
    hide Listing, AllShaped, Found, Grown, AddedNamed, Named, GoodTable, LowerText;
    GrownKnown(lib, t.rules, t.order, rules, order);
    GrownKeys(lib, t.rules, t.order, rules, order);
    TableKnown(t);
    WholeCompletes(lib, t, rules, order);
    AllRead(lib, t, rules, order);
    ListedAt(t, 0);
  }

  /** fReadRules: a grammar is refused exactly where no closed rules complete its lines, and read as
      the fewest that do, shaped as the analysis asks. */
  method ReadGrammar(src: string, lib: Rules) returns (r: Reading)
    requires AllShaped(lib)
    ensures r.Refused? <==> !Completed(SourceTable(src), lib)
    ensures r.Whole? ==> ReadOf(SourceTable(src), lib, r) && ReadRules(r.rules) && Listing(r.order, r.rules) && AllShaped(r.rules)
    ensures r.Whole? ==> r.order != [] && r.order[0] == LowerText(r.start) && LowerText(r.start) in r.rules
  {
    hide Listing, AllShaped, Defs, TableOf, Split, Newlines, GoodTable, Along, Completes, ReadOf, ReadRules, LowerText;
    var defs := DefsLoop(Split(Newlines(src)));
    if defs.None? { return Refused; }
    var t := TableLoop(defs.value);
    if t.NoTable? || t.start == "" { return Refused; }
    TableGood(defs.value);
    AlongNone(t, lib);
    var rules, order := t.rules, t.order;
    for i := 0 to |t.order|
      invariant Along(t, lib, i, rules, order)
    {
      var ok;
      ok, rules, order := ReferRule(t, lib, i, rules, order);
      if !ok { return Refused; }
    }
    AlongAll(t, lib, rules, order);
    r := Whole(rules, order, t.start);
  }

  lemma TableKnown(t: Table)
    requires GoodTable(t)
    ensures Listing(t.order, t.rules) && AllShaped(t.rules) && (t.start != "" ==> t.order != [] && t.order[0] == LowerText(t.start))
  {
  }

  lemma ListedAt(t: Table, i: nat)
    requires GoodTable(t) && i < |t.order|
    ensures t.order[i] in t.rules
  {
    assert t.order[i] in t.order;
  }

  lemma AllRead(lib: Rules, t: Table, rules: Rules, order: seq<string>)
    requires GoodTable(t) && Grown(lib, t.rules, t.order, rules, order) && AddedNamed(t.rules, rules)
    requires forall k :: 0 <= k < |t.order| ==> t.order[k] in t.rules && Named(rules.Keys, t.rules[t.order[k]])
    ensures ReadRules(rules)
  {
    hide Found, Named, Shaped;
    forall n | n in rules ensures ReadNode(rules, rules[n]) {
      ShapedNamed(rules, rules[n]);
      if n in t.rules {
        var k :| 0 <= k < |t.order| && t.order[k] == n;
      } else {
        assert RuleNamed(rules, n);
      }
    }
  }
}
