/**
 The depth-first walk over the rules of a grammar (fWalk, go/formatgrammar.go:455-491), its
 finishing order, and where it meets a cycle.
 */
module Walk {

  type Edges = map<string, seq<string>>

  /** The edges out of a rule; a rule the map lacks has none. */
  function Out(edges: Edges, n: string): seq<string> {
    if n in edges then edges[n] else []
  }

  datatype Stop = Stop(name: string, next: nat)

  // ----- paths and cycles

  ghost predicate Path(edges: Edges, p: seq<string>) {
    p != [] && forall i :: 0 <= i < |p| - 1 ==> p[i + 1] in Out(edges, p[i])
  }

  ghost predicate OnCycle(edges: Edges, t: string) {
    exists p :: Path(edges, p) && 1 < |p| && p[0] == t && p[|p| - 1] == t
  }

  /** Every edge of a rule in the list leads to a rule earlier in it. */
  ghost predicate Topological(edges: Edges, done: seq<string>) {
    forall i, t :: 0 <= i < |done| && t in Out(edges, done[i]) ==> t in done[..i]
  }

  ghost predicate Distinct(s: seq<string>) {
    forall i, j :: 0 <= i < j < |s| ==> s[i] != s[j]
  }

  /** Where a rule stands in the list. */
  ghost function Rank(done: seq<string>, n: string): (r: nat)
    ensures r <= |done|
    ensures n in done ==> r < |done| && done[r] == n
    ensures forall i :: 0 <= i < |done| && i < r ==> done[i] != n
  {
    if done == [] then 0 else if done[0] == n then 0 else
      var r := Rank(done[1..], n);
      assert n in done ==> n in done[1..];
      assert forall i :: 0 < i < |done| ==> done[i] == done[1..][i - 1];
      r + 1
  }

  lemma RankFalls(edges: Edges, done: seq<string>, n: string, t: string)
    requires Topological(edges, done) && n in done && t in Out(edges, n)
    ensures t in done && Rank(done, t) < Rank(done, n)
  {
    var i := Rank(done, n);
    assert t in done[..i];
    var k :| 0 <= k < i && done[..i][k] == t;
    assert done[k] == t;
  }

  lemma {:induction false} RankAlong(edges: Edges, done: seq<string>, p: seq<string>)
    requires Topological(edges, done) && Path(edges, p) && p[0] in done
    ensures p[|p| - 1] in done && Rank(done, p[|p| - 1]) + |p| - 1 <= Rank(done, p[0])
    decreases |p|
  {
    if 1 < |p| {
      RankFalls(edges, done, p[0], p[1]);
      forall i | 0 <= i < |p[1..]| - 1 ensures p[1..][i + 1] in Out(edges, p[1..][i]) {
        assert p[i + 1 + 1] in Out(edges, p[i + 1]);
      }
      RankAlong(edges, done, p[1..]);
    }
  }

  /** A list in which every edge leads back holds no rule on a cycle. */
  lemma NoCycle(edges: Edges, done: seq<string>, t: string)
    requires Topological(edges, done) && t in done
    ensures !OnCycle(edges, t)
  {
    if OnCycle(edges, t) {
      var p :| Path(edges, p) && 1 < |p| && p[0] == t && p[|p| - 1] == t;
      RankAlong(edges, done, p);
    }
  }

  // ----- the walk

  /** The stack is a path: each rule on it is the edge the one below last took. */
  ghost predicate Chain(edges: Edges, stack: seq<Stop>) {
    && (forall i :: 0 <= i < |stack| ==> stack[i].next <= |Out(edges, stack[i].name)|)
    && (forall i :: 0 <= i < |stack| - 1 ==>
          0 < stack[i].next && stack[i + 1].name == Out(edges, stack[i].name)[stack[i].next - 1])
  }

  ghost function Names(stack: seq<Stop>): (s: seq<string>)
    ensures |s| == |stack| && forall i :: 0 <= i < |s| ==> s[i] == stack[i].name
  {
    seq(|stack|, i requires 0 <= i < |stack| => stack[i].name)
  }

  /** The states: 1 on the stack, 2 done, 0 (absent) unseen. */
  ghost predicate States(state: map<string, int>, stack: seq<Stop>, done: seq<string>) {
    && (forall n :: n in state ==> state[n] == 1 || state[n] == 2)
    && (forall n :: n in state && state[n] == 1 <==> n in Names(stack))
    && (forall n :: n in state && state[n] == 2 <==> n in done)
    && Distinct(Names(stack)) && Distinct(done)
  }

  /** The edges already taken from the stop at position i lead to finished rules or are
      the one the next stop stands for. */
  ghost predicate Taken(edges: Edges, stack: seq<Stop>, done: seq<string>) {
    forall i, k :: 0 <= i < |stack| && 0 <= k < stack[i].next && k < |Out(edges, stack[i].name)| ==>
      Out(edges, stack[i].name)[k] in done || (i + 1 < |stack| && k == stack[i].next - 1)
  }

  /** The edges the stack has still to take, with one for each stop's end. */
  ghost function Left(edges: Edges, stack: seq<Stop>): nat {
    if stack == [] then 0
    else
      var top := stack[|stack| - 1];
      Left(edges, stack[..|stack| - 1]) + 1 + if top.next <= |Out(edges, top.name)| then |Out(edges, top.name)| - top.next else 0
  }

  ghost predicate Reaches(edges: Edges, all: set<string>) {
    forall n :: n in all ==> forall t :: t in Out(edges, n) ==> t in all
  }

  ghost predicate Inv(edges: Edges, all: set<string>, state: map<string, int>, stack: seq<Stop>, done: seq<string>, backs: seq<string>) {
    && Reaches(edges, all)
    && state.Keys <= all
    && Chain(edges, stack)
    && States(state, stack, done)
    && (forall t :: t in backs ==> OnCycle(edges, t))
    && (backs == [] ==> Topological(edges, done) && Taken(edges, stack, done))
  }

  /** Depth first over the rules (fWalk): the rules as each is finished, and the calls to
      back in order.  The callback of the source only records or raises, so its calls
      are returned. */
  method DepthFirst(names: seq<string>, edges: Edges, ghost all: set<string>)
    returns (done: seq<string>, backs: seq<string>)
    requires Reaches(edges, all) && forall n :: n in names ==> n in all
    ensures forall n :: n in names ==> n in done
    ensures forall n :: n in done ==> n in all
    ensures Distinct(done)
    ensures backs == [] ==> Topological(edges, done)
    ensures forall t :: t in backs ==> OnCycle(edges, t)
  {
    var state: map<string, int> := map[];
    done, backs := [], [];
    for r := 0 to |names|
      invariant Inv(edges, all, state, [], done, backs)
      invariant forall i :: 0 <= i < r ==> names[i] in done
    {
      if names[r] !in state {
        ghost var was := done;
        state, done, backs := Finish(names[r], edges, all, state, done, backs);
        assert forall i :: 0 <= i < r ==> names[i] in was;
      }
    }
  }

  /** The walk from one root, the inner loop of fWalk. */
  method Finish(root: string, edges: Edges, ghost all: set<string>, state0: map<string, int>,
                done0: seq<string>, backs0: seq<string>)
    returns (state: map<string, int>, done: seq<string>, backs: seq<string>)
    requires Inv(edges, all, state0, [], done0, backs0) && root in all && root !in state0
    ensures Inv(edges, all, state, [], done, backs)
    ensures done0 <= done && root in done
  {
    hide Inv, Names;
    PushKeeps(edges, all, state0, [], done0, backs0, root);
    state, done, backs := state0[root := 1], done0, backs0;
    var stack := [Stop(root, 0)];
    while 0 < |stack|
      invariant Inv(edges, all, state, stack, done, backs)
      invariant root in state && done0 <= done
      decreases all - state.Keys, Left(edges, stack)
    {
      TopKnown(edges, all, state, stack, done, backs);
      var top := stack[|stack| - 1];
      var out := Out(edges, top.name);
      if top.next == |out| {
        PopKeeps(edges, all, state, stack, done, backs);
        stack := stack[..|stack| - 1];
        state := state[top.name := 2];
        done := done + [top.name];
        continue;
      }
      var t := out[top.next];
      var moved := stack[..|stack| - 1] + [Stop(top.name, top.next + 1)];
      if t in state && state[t] == 1 {
        BackKeeps(edges, all, state, stack, done, backs);
        stack := moved;
        backs := backs + [t];
      } else if t !in state {
        StepKeeps(edges, all, state, stack, done, backs);
        assert t in all - state.Keys;
        stack := moved + [Stop(t, 0)];
        state := state[t := 1];
        assert t !in all - state.Keys;
      } else {
        SkipKeeps(edges, all, state, stack, done, backs);
        stack := moved;
      }
    }
    AllDone(edges, all, state, done, backs);
  }

  lemma TopKnown(edges: Edges, all: set<string>, state: map<string, int>, stack: seq<Stop>, done: seq<string>, backs: seq<string>)
    requires Inv(edges, all, state, stack, done, backs) && stack != []
    ensures stack[|stack| - 1].next <= |Out(edges, stack[|stack| - 1].name)|
    ensures forall n :: n in state ==> state[n] == 1 || state[n] == 2
  {
  }

  lemma AllDone(edges: Edges, all: set<string>, state: map<string, int>, done: seq<string>, backs: seq<string>)
    requires Inv(edges, all, state, [], done, backs)
    ensures forall n :: n in state ==> n in done
  {
    assert Names([]) == [];
  }

  lemma PushKeeps(edges: Edges, all: set<string>, state: map<string, int>, stack: seq<Stop>, done: seq<string>,
                  backs: seq<string>, root: string)
    requires Inv(edges, all, state, stack, done, backs) && stack == []
    requires root in all && root !in state
    ensures Inv(edges, all, state[root := 1], [Stop(root, 0)], done, backs)
  {
    var state', stack' := state[root := 1], [Stop(root, 0)];
    assert Names(stack') == [root];
    assert forall n :: n in state' && state'[n] == 1 <==> n in Names(stack');
    assert forall n :: n in state' && state'[n] == 2 <==> n in done;
  }

  // The top stop with its next edge taken, and that edge's target.
  ghost function Moved(stack: seq<Stop>): seq<Stop>
    requires stack != []
  {
    var top := stack[|stack| - 1];
    stack[..|stack| - 1] + [Stop(top.name, top.next + 1)]
  }

  ghost predicate MayMove(edges: Edges, stack: seq<Stop>) {
    stack != [] && stack[|stack| - 1].next < |Out(edges, stack[|stack| - 1].name)|
  }

  ghost function Target(edges: Edges, stack: seq<Stop>): (t: string)
    requires MayMove(edges, stack)
    ensures t in Out(edges, stack[|stack| - 1].name)
  {
    Out(edges, stack[|stack| - 1].name)[stack[|stack| - 1].next]
  }

  lemma MovedChain(edges: Edges, stack: seq<Stop>)
    requires Chain(edges, stack) && MayMove(edges, stack)
    ensures Chain(edges, Moved(stack)) && Names(Moved(stack)) == Names(stack)
    ensures Left(edges, Moved(stack)) < Left(edges, stack)
  {
    hide Left;
    var m := Moved(stack);
    assert forall i :: 0 <= i < |stack| - 1 ==> m[i] == stack[i];
    assert Names(m) == Names(stack);
    MovedLeft(edges, stack);
  }

  lemma MovedLeft(edges: Edges, stack: seq<Stop>)
    requires MayMove(edges, stack)
    ensures Left(edges, Moved(stack)) < Left(edges, stack)
  {
    var m := Moved(stack);
    assert m[..|m| - 1] == stack[..|stack| - 1];
  }

  lemma MovedTaken(edges: Edges, stack: seq<Stop>, done: seq<string>)
    requires MayMove(edges, stack) && Taken(edges, stack, done)
    ensures Target(edges, stack) in done ==> Taken(edges, Moved(stack), done)
    ensures Taken(edges, Moved(stack) + [Stop(Target(edges, stack), 0)], done)
  {
    var m := Moved(stack);
    var n := |stack|;
    var top := stack[n - 1];
    forall i, k | 0 <= i < n && 0 <= k < m[i].next && k < |Out(edges, m[i].name)|
      ensures Out(edges, m[i].name)[k] in done || (i + 1 < n && k == m[i].next - 1) || (i == n - 1 && k == top.next)
    {
      if i < n - 1 { assert m[i] == stack[i]; } else { assert m[i].name == stack[i].name; }
    }
  }

  lemma PushedChain(edges: Edges, stack: seq<Stop>)
    requires Chain(edges, stack) && MayMove(edges, stack)
    ensures Chain(edges, Moved(stack) + [Stop(Target(edges, stack), 0)])
    ensures Names(Moved(stack) + [Stop(Target(edges, stack), 0)]) == Names(stack) + [Target(edges, stack)]
  {
    MovedChain(edges, stack);
    OneMore(edges, Moved(stack), Target(edges, stack));
  }

  lemma OneMore(edges: Edges, m: seq<Stop>, t: string)
    requires Chain(edges, m) && m != []
    requires 0 < m[|m| - 1].next && t == Out(edges, m[|m| - 1].name)[m[|m| - 1].next - 1]
    ensures Chain(edges, m + [Stop(t, 0)])
    ensures Names(m + [Stop(t, 0)]) == Names(m) + [t]
  {
    var s := m + [Stop(t, 0)];
    forall i | 0 <= i < |s| - 1
      ensures 0 < s[i].next && s[i].next <= |Out(edges, s[i].name)| && s[i + 1].name == Out(edges, s[i].name)[s[i].next - 1]
    {
      assert s[i] == m[i];
    }
  }

  lemma PoppedTopological(edges: Edges, stack: seq<Stop>, done: seq<string>)
    requires stack != [] && stack[|stack| - 1].next == |Out(edges, stack[|stack| - 1].name)|
    requires Topological(edges, done) && Taken(edges, stack, done)
    ensures Topological(edges, done + [stack[|stack| - 1].name])
  {
    var top := stack[|stack| - 1];
    var done' := done + [top.name];
    forall i, t | 0 <= i < |done'| && t in Out(edges, done'[i]) ensures t in done'[..i] {
      assert done'[..i] == done[..i];
      if i == |done| {
        var k :| 0 <= k < |Out(edges, top.name)| && Out(edges, top.name)[k] == t;
        assert done[..i] == done;
      }
    }
  }

  lemma PoppedTaken(edges: Edges, stack: seq<Stop>, done: seq<string>)
    requires stack != [] && Chain(edges, stack) && Taken(edges, stack, done)
    ensures Taken(edges, stack[..|stack| - 1], done + [stack[|stack| - 1].name])
  {
    var stack', done' := stack[..|stack| - 1], done + [stack[|stack| - 1].name];
    forall i, k | 0 <= i < |stack'| && 0 <= k < stack'[i].next && k < |Out(edges, stack'[i].name)|
      ensures Out(edges, stack'[i].name)[k] in done' || (i + 1 < |stack'| && k == stack'[i].next - 1)
    {
      assert stack'[i] == stack[i];
      if Out(edges, stack[i].name)[k] !in done {
        assert k == stack[i].next - 1 && stack[i + 1].name == Out(edges, stack[i].name)[k];
      }
    }
  }

  lemma PoppedStates(state: map<string, int>, stack: seq<Stop>, done: seq<string>)
    requires States(state, stack, done) && stack != []
    ensures States(state[stack[|stack| - 1].name := 2], stack[..|stack| - 1], done + [stack[|stack| - 1].name])
  {
    var top := stack[|stack| - 1].name;
    assert Names(stack) == Names(stack[..|stack| - 1]) + [top];
    assert Names(stack)[|stack| - 1] == top;
    assert top in Names(stack) && top !in Names(stack[..|stack| - 1]);
  }

  lemma PopKeeps(edges: Edges, all: set<string>, state: map<string, int>, stack: seq<Stop>, done: seq<string>, backs: seq<string>)
    requires Inv(edges, all, state, stack, done, backs) && stack != []
    requires stack[|stack| - 1].next == |Out(edges, stack[|stack| - 1].name)|
    ensures Inv(edges, all, state[stack[|stack| - 1].name := 2], stack[..|stack| - 1],
                done + [stack[|stack| - 1].name], backs)
    ensures state[stack[|stack| - 1].name := 2].Keys == state.Keys
    ensures Left(edges, stack[..|stack| - 1]) < Left(edges, stack)
  {
    PoppedStates(state, stack, done);
    assert Names(stack)[|stack| - 1] == stack[|stack| - 1].name;
    if backs == [] {
      PoppedTopological(edges, stack, done);
      PoppedTaken(edges, stack, done);
    }
  }

  lemma CycleThrough(edges: Edges, stack: seq<Stop>, i: nat)
    requires Chain(edges, stack) && MayMove(edges, stack)
    requires i < |stack| && stack[i].name == Target(edges, stack)
    ensures OnCycle(edges, Target(edges, stack))
  {
    var t := Target(edges, stack);
    var p := seq(|stack| - i + 1, k requires 0 <= k <= |stack| - i =>
                   if k < |stack| - i then stack[i + k].name else t);
    forall k | 0 <= k < |p| - 1 ensures p[k + 1] in Out(edges, p[k]) {
      assert p[k] == stack[i + k].name;
      if i + k + 1 < |stack| {
        assert 0 < stack[i + k].next <= |Out(edges, stack[i + k].name)|;
        assert p[k + 1] == stack[i + k + 1].name;
      }
    }
    assert Path(edges, p) && p[0] == t && p[|p| - 1] == t;
  }

  lemma BackKeeps(edges: Edges, all: set<string>, state: map<string, int>, stack: seq<Stop>, done: seq<string>, backs: seq<string>)
    requires Inv(edges, all, state, stack, done, backs) && MayMove(edges, stack)
    requires Target(edges, stack) in state && state[Target(edges, stack)] == 1
    ensures Inv(edges, all, state, Moved(stack), done, backs + [Target(edges, stack)])
    ensures Left(edges, Moved(stack)) < Left(edges, stack)
  {
    MovedChain(edges, stack);
    var t := Target(edges, stack);
    var i :| 0 <= i < |stack| && Names(stack)[i] == t;
    CycleThrough(edges, stack, i);
  }

  lemma StepKeeps(edges: Edges, all: set<string>, state: map<string, int>, stack: seq<Stop>, done: seq<string>, backs: seq<string>)
    requires Inv(edges, all, state, stack, done, backs) && MayMove(edges, stack)
    requires Target(edges, stack) !in state
    ensures Inv(edges, all, state[Target(edges, stack) := 1], Moved(stack) + [Stop(Target(edges, stack), 0)], done, backs)
    ensures Target(edges, stack) in all
  {
    var t := Target(edges, stack);
    assert Names(stack)[|stack| - 1] in state;
    assert t in all;
    PushedChain(edges, stack);
    PushedStates(state, stack, done, Moved(stack) + [Stop(t, 0)], t);
    if backs == [] { MovedTaken(edges, stack, done); }
  }

  lemma PushedStates(state: map<string, int>, stack: seq<Stop>, done: seq<string>, stack': seq<Stop>, t: string)
    requires States(state, stack, done) && t !in state
    requires Names(stack') == Names(stack) + [t]
    ensures States(state[t := 1], stack', done)
  {
    assert t !in Names(stack) && t !in done;
  }

  lemma SkipKeeps(edges: Edges, all: set<string>, state: map<string, int>, stack: seq<Stop>, done: seq<string>, backs: seq<string>)
    requires Inv(edges, all, state, stack, done, backs) && MayMove(edges, stack)
    requires Target(edges, stack) in state && state[Target(edges, stack)] == 2
    ensures Inv(edges, all, state, Moved(stack), done, backs)
    ensures Left(edges, Moved(stack)) < Left(edges, stack)
  {
    MovedChain(edges, stack);
    if backs == [] { MovedTaken(edges, stack, done); }
  }

  /** With every rule among the names, the walk calls back exactly when some rule reaches itself. */
  lemma CallsBackIff(edges: Edges, all: set<string>, names: seq<string>, done: seq<string>, backs: seq<string>)
    requires forall n :: n in all <==> n in names
    requires forall n :: n in names ==> n in done
    requires backs == [] ==> Topological(edges, done)
    requires forall t :: t in backs ==> OnCycle(edges, t)
    ensures (exists t :: t in all && OnCycle(edges, t)) ==> backs != []
    ensures backs != [] ==> exists t :: t in backs && OnCycle(edges, t)
  {
    if backs == [] {
      forall t | t in all ensures !OnCycle(edges, t) { NoCycle(edges, done, t); }
    } else {
      assert backs[0] in backs;
    }
  }
}
