/**
 Counting the branches of a nof atom that admit a settled value (go/constraint.go:1181-1226,
 1924-1940), by trials run once per key against a budget (go/admit.go:246-270).
 */
module Trials {
  import opened Scalars
  import opened Residuals

  /** A position, a trial's canon and a value's canon. */
  datatype Key = Key(path: seq<string>, trial: string, value: string)

  /** A branch that settled to nothing, or a trial schema by its canon. */
  datatype Branch = Nil | Schema(canon: string)

  datatype Nof = Nof(count: Residual, cs: seq<Branch>)

  const TRIAL_BUDGET: nat := 100000

  // ----- how far a count decides

  datatype Span = AllOf | NoneOf | SomeOf

  predicate CountTakes(w: World, count: Residual, n: nat) {
    StateAdmits(w, count, CountVal(n))
  }

  /** How many of the numbers from lo up to but not hi a count takes. */
  function Taken(w: World, count: Residual, lo: nat, hi: nat): (yes: nat)
    requires lo <= hi
    ensures yes <= hi - lo
    decreases hi
  {
    if lo == hi then 0 else Taken(w, count, lo, hi - 1) + if CountTakes(w, count, hi - 1) then 1 else 0
  }

  lemma {:induction false} TakenAll(w: World, count: Residual, lo: nat, hi: nat)
    requires lo <= hi
    ensures Taken(w, count, lo, hi) == hi - lo <==> forall n :: lo <= n < hi ==> CountTakes(w, count, n)
    ensures Taken(w, count, lo, hi) == 0 <==> forall n :: lo <= n < hi ==> !CountTakes(w, count, n)
    decreases hi
  {
    hide CountTakes;
    if lo < hi { TakenAll(w, count, lo, hi - 1); }
  }

  ghost predicate SpanIs(w: World, count: Residual, lo: nat, hi: nat, span: Span) {
    && (span.AllOf? <==> forall n :: lo <= n <= hi ==> CountTakes(w, count, n))
    && (span.NoneOf? <==> forall n :: lo <= n <= hi ==> !CountTakes(w, count, n))
  }

  /** countSpan: how a count stands to the numbers of a span. */
  method CountSpan(w: World, count: Residual, lo: nat, hi: nat) returns (span: Span)
    requires lo <= hi
    ensures SpanIs(w, count, lo, hi, span)
  {
    hide StateAdmits;
    var yes := 0;
    var n := lo;
    while n <= hi
      invariant lo <= n <= hi + 1 && yes == Taken(w, count, lo, n)
    {
      if StateAdmits(w, count, CountVal(n)) { yes := yes + 1; }
      n := n + 1;
    }
    span := if hi - lo + 1 == yes then AllOf else if yes == 0 then NoneOf else SomeOf;
    SpanOfTaken(w, count, lo, hi, yes, span);
  }

  lemma SpanOfTaken(w: World, count: Residual, lo: nat, hi: nat, yes: nat, span: Span)
    requires lo <= hi && yes == Taken(w, count, lo, hi + 1)
    requires span == if hi - lo + 1 == yes then AllOf else if yes == 0 then NoneOf else SomeOf
    ensures SpanIs(w, count, lo, hi, span)
  {
    hide CountTakes, Taken;
    TakenAll(w, count, lo, hi + 1);
    assert CountTakes(w, count, lo) || !CountTakes(w, count, lo);
  }

  /** One number is taken or it is not. */
  lemma SpanPoint(w: World, count: Residual, n: nat, span: Span)
    requires SpanIs(w, count, n, n, span)
    ensures !span.SomeOf?
  {
    hide CountTakes;
    assert CountTakes(w, count, n) || !CountTakes(w, count, n);
  }

  // ----- what a fresh trial of every branch says

  function KeyOf(path: seq<string>, b: Branch, value: string): Key
    requires b.Schema?
  {
    Key(path, b.canon, value)
  }

  /** A trial run afresh. */
  predicate Fresh(verdict: Key -> bool, path: seq<string>, b: Branch, value: string) {
    b.Schema? && verdict(KeyOf(path, b, value))
  }

  /** How many branches a fresh trial of each admits. */
  function Admitting(verdict: Key -> bool, path: seq<string>, cs: seq<Branch>, value: string): (k: nat)
    ensures k <= |cs|
  {
    if cs == [] then 0
    else Admitting(verdict, path, cs[..|cs| - 1], value) + if Fresh(verdict, path, cs[|cs| - 1], value) then 1 else 0
  }

  /** The branches left untried add at most themselves. */
  lemma {:induction false} AdmittingWithin(verdict: Key -> bool, path: seq<string>, cs: seq<Branch>, value: string, tried: nat)
    requires tried <= |cs|
    ensures var k := Admitting(verdict, path, cs[..tried], value); k <= Admitting(verdict, path, cs, value) <= k + |cs| - tried
    decreases |cs|
  {
    if tried == |cs| {
      assert cs[..tried] == cs;
    } else {
      var front := cs[..|cs| - 1];
      AdmittingWithin(verdict, path, front, value, tried);
      assert front[..tried] == cs[..tried];
    }
  }

  /** What the trials of these branches are charged for. */
  function Keys(path: seq<string>, cs: seq<Branch>, value: string): set<Key> {
    set b | b in cs && b.Schema? :: KeyOf(path, b, value)
  }

  function AllKeys(path: seq<string>, nofs: seq<Nof>, value: string): set<Key> {
    set n, b | n in nofs && b in n.cs && b.Schema? :: KeyOf(path, b, value)
  }

  /** What one trial is charged for. */
  function Charge(path: seq<string>, b: Branch, value: string): set<Key> {
    if b.Schema? then {KeyOf(path, b, value)} else {}
  }

  lemma KeysPush(path: seq<string>, cs: seq<Branch>, value: string, i: nat)
    requires i < |cs|
    ensures Keys(path, cs[..i + 1], value) == Keys(path, cs[..i], value) + Charge(path, cs[i], value) <= Keys(path, cs, value)
  {
    assert cs[..i + 1] == cs[..i] + [cs[i]];
  }

  /** The keys now are those before and at most these. */
  ghost predicate Grown(before: set<Key>, now: set<Key>, keys: set<Key>) {
    before <= now <= before + keys
  }

  /** The keys now are those before and these. */
  ghost predicate Charged(before: set<Key>, now: set<Key>, keys: set<Key>) {
    now == before + keys
  }

  lemma ChargedOn(path: seq<string>, cs: seq<Branch>, value: string, i: nat, before: set<Key>, here: set<Key>, now: set<Key>)
    requires i < |cs| && Charged(before, here, Keys(path, cs[..i], value)) && Charged(here, now, Charge(path, cs[i], value))
    ensures Charged(before, now, Keys(path, cs[..i + 1], value))
  {
    hide Keys, Charge;
    KeysPush(path, cs, value, i);
  }

  /** With these keys more than the budget would be charged. */
  ghost predicate Outnumbers(budget: nat, before: set<Key>, keys: set<Key>) {
    budget < |before + keys|
  }

  lemma GrownWithin(path: seq<string>, cs: seq<Branch>, value: string, i: nat, before: set<Key>, now: set<Key>)
    requires i <= |cs| && Charged(before, now, Keys(path, cs[..i], value))
    ensures Grown(before, now, Keys(path, cs, value))
  {
  }

  lemma GrownNone(before: set<Key>, keys: set<Key>)
    ensures Grown(before, before, keys)
  {
  }

  lemma GrownOn(budget: nat, before: set<Key>, here: set<Key>, now: set<Key>, some: set<Key>, keys: set<Key>)
    requires Grown(before, here, keys) && Grown(here, now, some) && some <= keys
    ensures Grown(before, now, keys)
    ensures Outnumbers(budget, here, some) ==> Outnumbers(budget, before, keys)
  {
    Smaller(here + some, before + keys);
  }

  lemma NofKeys(path: seq<string>, nofs: seq<Nof>, value: string, i: nat)
    requires i < |nofs|
    ensures Keys(path, nofs[i].cs, value) <= AllKeys(path, nofs, value)
  {
  }

  lemma Smaller<T>(a: set<T>, b: set<T>)
    requires a <= b
    ensures |a| <= |b|
  {
    assert b == a + (b - a);
  }

  /** The count of a nof takes the number of branches that admit. */
  predicate Holds(w: World, verdict: Key -> bool, path: seq<string>, nof: Nof, value: string) {
    CountTakes(w, nof.count, Admitting(verdict, path, nof.cs, value))
  }

  lemma NoneTried(verdict: Key -> bool, path: seq<string>, cs: seq<Branch>, value: string, before: set<Key>)
    ensures Progress(verdict, path, cs, value, before, before, 0, 0)
  {
  }

  lemma AdmittingPush(verdict: Key -> bool, path: seq<string>, cs: seq<Branch>, value: string, i: nat)
    requires i < |cs|
    ensures Admitting(verdict, path, cs[..i + 1], value)
         == Admitting(verdict, path, cs[..i], value) + if Fresh(verdict, path, cs[i], value) then 1 else 0
  {
    assert cs[..i + 1][..i] == cs[..i] && cs[..i + 1][i] == cs[i];
  }

  /** A span that is all or none decides, whatever the branches left open would say. */
  lemma Decided(w: World, verdict: Key -> bool, path: seq<string>, nof: Nof, value: string, k: nat, open: nat, span: Span)
    requires SpanIs(w, nof.count, k, k + open, span) && !span.SomeOf?
    requires k <= Admitting(verdict, path, nof.cs, value) <= k + open
    ensures span.AllOf? <==> Holds(w, verdict, path, nof, value)
    ensures span.NoneOf? <==> !Holds(w, verdict, path, nof, value)
  {
    hide CountTakes, Admitting;
  }

  /** The first `tried` branches have been tried, k of them admit, and only they are charged. */
  ghost predicate Progress(verdict: Key -> bool, path: seq<string>, cs: seq<Branch>, value: string, before: set<Key>,
                           now: set<Key>, tried: nat, k: nat) {
    && tried <= |cs| && k == Admitting(verdict, path, cs[..tried], value)
    && Charged(before, now, Keys(path, cs[..tried], value))
  }

  lemma Undecided(w: World, count: Residual, k: nat, n: nat, tried: nat, span: Span)
    requires tried <= n && SpanIs(w, count, k, k + n - tried, span) && span.SomeOf?
    ensures tried < n
  {
    hide SpanIs;
    if tried == n { SpanPoint(w, count, k, span); }
  }

  /** Once decided, the verdict is the one trying every branch would give. */
  lemma Settled(w: World, verdict: Key -> bool, path: seq<string>, nof: Nof, value: string, before: set<Key>, now: set<Key>,
                tried: nat, k: nat, span: Span)
    requires Progress(verdict, path, nof.cs, value, before, now, tried, k)
    requires SpanIs(w, nof.count, k, k + |nof.cs| - tried, span) && !span.SomeOf?
    ensures Grown(before, now, Keys(path, nof.cs, value))
    ensures span.AllOf? <==> Holds(w, verdict, path, nof, value)
    ensures span.NoneOf? <==> !Holds(w, verdict, path, nof, value)
    ensures k <= Admitting(verdict, path, nof.cs, value) <= k + |nof.cs| - tried
  {
    hide SpanIs, Holds, Grown, Charged, Admitting, Keys;
    GrownWithin(path, nof.cs, value, tried, before, now);
    AdmittingWithin(verdict, path, nof.cs, value, tried);
    Decided(w, verdict, path, nof, value, k, |nof.cs| - tried, span);
  }

  /** What a check of nof atoms says: that they hold, which is the first that does not and how
      many branches were seen to admit or left open, or that the budget is spent. */
  datatype Outcome = Passes | Refuses(nof: nat, admitted: nat, open: nat) | OverBudget

  // ----- the memo

  /** The trials an evaluation may run: as many as given, 100000 where none are. */
  ghost function Allowance(given: nat): nat {
    if given == 0 then 100000 else given
  }

  /** One evaluation's trials. */
  class TrialState {
    const verdict: Key -> bool
    const budgetTrials: nat
    var memo: map<Key, bool>
    var n: nat

    constructor (verdict: Key -> bool, budgetTrials: nat)
      ensures Valid() && memo == map[] && n == 0 && this.verdict == verdict && this.budgetTrials == budgetTrials
    {
      this.verdict := verdict;
      this.budgetTrials := budgetTrials;
      memo := map[];
      n := 0;
    }

    function Budget(): nat {
      if budgetTrials == 0 then TRIAL_BUDGET else budgetTrials
    }

    /** Every entry is what a fresh trial says, each key was charged once, and within budget. */
    ghost predicate Valid()
      reads this
    {
      && (forall k :: k in memo ==> memo[k] == verdict(k))
      && n == |memo| && n <= Allowance(budgetTrials)
    }

    /** admitsSettled: a fresh trial's verdict, unless the budget is spent on other keys. */
    method AdmitsSettled(path: seq<string>, b: Branch, value: string) returns (admits: bool, ok: bool)
      requires Valid()
      modifies this
      ensures Valid()
      ensures ok ==> admits == Fresh(verdict, path, b, value) && Charged(old(memo.Keys), memo.Keys, Charge(path, b, value))
      ensures !ok ==> !admits && memo == old(memo) && n == Allowance(budgetTrials) && !(Charge(path, b, value) <= memo.Keys)
    {
      if b.Nil? { return false, true; }
      var key := KeyOf(path, b, value);
      if key in memo { return memo[key], true; }
      if Budget() <= n { return false, false; }
      n := n + 1;
      var said := verdict(key);
      memo := memo[key := said];
      return said, true;
    }

    /** Trials that found the budget spent needed more keys than it allows. */
    lemma Outnumbered(before: set<Key>, tried: set<Key>, charge: set<Key>, keys: set<Key>)
      requires Valid() && n == Allowance(budgetTrials) && !(charge <= memo.Keys) && Charged(before, memo.Keys, tried) && tried + charge <= keys
      ensures Outnumbers(Allowance(budgetTrials), before, keys)
    {
      var key :| key in charge && key !in memo.Keys;
      assert |memo.Keys| == |memo|;
      Smaller(memo.Keys + {key}, before + keys);
    }

    /** The next branch's trial. */
    method Try(path: seq<string>, cs: seq<Branch>, value: string, tried: nat, k: nat, ghost before: set<Key>)
      returns (admitted: nat, ok: bool)
      requires Valid() && tried < |cs| && Progress(verdict, path, cs, value, before, memo.Keys, tried, k)
      modifies this
      ensures Valid()
      ensures ok ==> Progress(verdict, path, cs, value, before, memo.Keys, tried + 1, admitted)
      ensures !ok ==> Grown(before, memo.Keys, Keys(path, cs, value)) && Outnumbers(Allowance(budgetTrials), before, Keys(path, cs, value))
    {
      hide Keys, Charge, Charged, Fresh, Admitting, Grown, Outnumbers, Valid;
      ghost var here := memo.Keys;
      AdmittingPush(verdict, path, cs, value, tried);
      KeysPush(path, cs, value, tried);
      var admits;
      admits, ok := AdmitsSettled(path, cs[tried], value);
      if ok {
        ChargedOn(path, cs, value, tried, before, here, memo.Keys);
      } else {
        Outnumbered(before, Keys(path, cs[..tried], value), Charge(path, cs[tried], value), Keys(path, cs, value));
        GrownWithin(path, cs, value, tried, before, memo.Keys);
      }
      admitted := if ok && admits then k + 1 else k;
    }

    /** One nof atom: trials only while the count is not decided. */
    method CheckNof(w: World, path: seq<string>, nof: Nof, value: string) returns (out: Outcome)
      requires Valid()
      modifies this
      ensures Valid() && Grown(old(memo.Keys), memo.Keys, Keys(path, nof.cs, value))
      ensures out.Passes? ==> Holds(w, verdict, path, nof, value)
      ensures out.Refuses? ==> !Holds(w, verdict, path, nof, value)
      ensures out.Refuses? ==> out.nof == 0 && out.admitted <= Admitting(verdict, path, nof.cs, value) <= out.admitted + out.open
      ensures out.OverBudget? ==> Outnumbers(Allowance(budgetTrials), old(memo.Keys), Keys(path, nof.cs, value))
    {
      hide *;
      var cs := nof.cs;
      var k: nat, tried: nat := 0, 0;
      ghost var before := memo.Keys;
      NoneTried(verdict, path, cs, value, before);
      var span := CountSpan(w, nof.count, k, k + |cs| - tried);
      while span.SomeOf?
        invariant Valid() && tried <= |cs| && Progress(verdict, path, cs, value, before, memo.Keys, tried, k)
        invariant SpanIs(w, nof.count, k, k + |cs| - tried, span)
        decreases |cs| - tried
      {
        Undecided(w, nof.count, k, |cs|, tried, span);
        var ok;
        k, ok := Try(path, cs, value, tried, k, before);
        if !ok { return OverBudget; }
        tried := tried + 1;
        span := CountSpan(w, nof.count, k, k + |cs| - tried);
      }
      Settled(w, verdict, path, nof, value, before, memo.Keys, tried, k, span);
      if span.NoneOf? { return Refuses(0, k, |cs| - tried); }
      return Passes;
    }

    /** checkNofs: it passes exactly where every count takes the number of branches a fresh trial
        admits, names the first that does not, and runs out only where the keys outnumber the budget. */
    method CheckNofs(w: World, path: seq<string>, nofs: seq<Nof>, value: string) returns (out: Outcome)
      requires Valid()
      modifies this
      ensures Valid() && Grown(old(memo.Keys), memo.Keys, AllKeys(path, nofs, value))
      ensures out.Passes? ==> forall j :: 0 <= j < |nofs| ==> Holds(w, verdict, path, nofs[j], value)
      ensures out.Refuses? ==> out.nof < |nofs| && !Holds(w, verdict, path, nofs[out.nof], value)
                               && forall j :: 0 <= j < out.nof ==> Holds(w, verdict, path, nofs[j], value)
      ensures out.OverBudget? ==> Outnumbers(Allowance(budgetTrials), old(memo.Keys), AllKeys(path, nofs, value))
    {
      hide *;
      ghost var before := memo.Keys;
      var i := 0;
      GrownNone(before, AllKeys(path, nofs, value));
      while i < |nofs|
        invariant 0 <= i <= |nofs| && Valid() && Grown(before, memo.Keys, AllKeys(path, nofs, value))
        invariant forall j :: 0 <= j < i ==> Holds(w, verdict, path, nofs[j], value)
      {
        NofKeys(path, nofs, value, i);
        ghost var here := memo.Keys;
        out := CheckNof(w, path, nofs[i], value);
        GrownOn(Allowance(budgetTrials), before, here, memo.Keys, Keys(path, nofs[i].cs, value), AllKeys(path, nofs, value));
        if out.Refuses? { return out.(nof := i); }
        if out.OverBudget? { return; }
        i := i + 1;
      }
      out := Passes;
    }
  }
}
