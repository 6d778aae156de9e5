/**
 * Per-target repository locks. A worker takes the locks of one round after the
 * other, holds them together, releases them all and goes on to its next round:
 * an upload is a round of one target, a deletion or a retention pass a round of
 * several, in ascending order.
 */
module TargetLocks {
  import opened Listings

  /** Rounds still to do; of the first, `held` locks are taken. */
  datatype Worker = Worker(rounds: seq<seq<nat>>, held: nat)

  type State = seq<Worker>

  datatype Event = Arrive(rounds: seq<seq<nat>>) | Acquire(w: nat) | Release(w: nat)

  predicate Ordered(rounds: seq<seq<nat>>) {
    forall round :: round in rounds ==> Ascending(round)
  }

  predicate Finished(w: Worker) {
    w.rounds == []
  }

  predicate Waiting(w: Worker) {
    w.rounds != [] && w.held < |w.rounds[0]|
  }

  function Wanted(w: Worker): nat
    requires Waiting(w)
  {
    w.rounds[0][w.held]
  }

  predicate Holds(w: Worker, target: nat) {
    w.rounds != [] && w.held <= |w.rounds[0]| && target in w.rounds[0][..w.held]
  }

  predicate Free(s: State, target: nat) {
    forall w :: w in s ==> !Holds(w, target)
  }

  predicate Enabled(s: State, e: Event) {
    match e
    case Arrive(rounds) => Ordered(rounds)
    case Acquire(w) => w < |s| && Waiting(s[w]) && Free(s, Wanted(s[w]))
    case Release(w) => w < |s| && s[w].rounds != [] && s[w].held == |s[w].rounds[0]|
  }

  function Next(s: State, e: Event): State
    requires Enabled(s, e)
  {
    match e
    case Arrive(rounds) => s + [Worker(rounds, 0)]
    case Acquire(w) => s[w := s[w].(held := s[w].held + 1)]
    case Release(w) => s[w := Worker(s[w].rounds[1..], 0)]
  }

  predicate IsRun(s: State, es: seq<Event>)
    decreases |es|
  {
    es == [] || (Enabled(s, es[0]) && IsRun(Next(s, es[0]), es[1..]))
  }

  function RunTo(s: State, es: seq<Event>): State
    requires IsRun(s, es)
    decreases |es|
  {
    if es == [] then s else RunTo(Next(s, es[0]), es[1..])
  }

  predicate WorkerOk(w: Worker) {
    Ordered(w.rounds) && (w.rounds == [] ==> w.held == 0) && (w.rounds != [] ==> w.held <= |w.rounds[0]|)
  }

  ghost predicate Invariant(s: State) {
    && (forall w :: w in s ==> WorkerOk(w))
    && (forall i, j, target :: 0 <= i < |s| && 0 <= j < |s| && Holds(s[i], target) && Holds(s[j], target) ==> i == j)
  }

  lemma StepKeepsInvariant(s: State, e: Event)
    requires Invariant(s) && Enabled(s, e)
    ensures Invariant(Next(s, e))
  {
    var t := Next(s, e);
    forall i | 0 <= i < |t| ensures WorkerOk(t[i]) {
      assert i < |s| ==> WorkerOk(s[i]);
      if e.Release? && i == e.w {
        assert forall round :: round in t[i].rounds ==> round in s[i].rounds;
      }
    }
    forall i, target | 0 <= i < |t| && Holds(t[i], target)
      ensures i < |s| && (Holds(s[i], target) || (e == Acquire(i) && Wanted(s[i]) == target))
    {
    }
  }

  lemma {:induction false} RunsKeepInvariant(s: State, es: seq<Event>)
    requires Invariant(s) && IsRun(s, es)
    ensures Invariant(RunTo(s, es))
    decreases |es|
  {
    hide Invariant, Enabled, Next;
    if es != [] {
      StepKeepsInvariant(s, es[0]);
      RunsKeepInvariant(Next(s, es[0]), es[1..]);
    }
  }

  // ------------------------------------------------------------ where rounds come from

  /** A stored copy of a backup, as listed on its record. */
  datatype Copy = Copy(target: nat, succeeded: bool, path: string)

  predicate Present(copy: Copy) {
    copy.succeeded && copy.path != ""
  }

  /** The last present copy on a target counts. */
  function Paths(copies: seq<Copy>): map<nat, string> {
    if copies == [] then map[]
    else
      var last := copies[|copies| - 1];
      var front := Paths(copies[..|copies| - 1]);
      if Present(last) then front[last.target := last.path] else front
  }

  lemma {:induction false} PathsAreTargets(copies: seq<Copy>, target: nat)
    ensures target in Paths(copies) <==> exists copy :: copy in copies && Present(copy) && copy.target == target
  {
    if copies != [] {
      var init, last := copies[..|copies| - 1], copies[|copies| - 1];
      PathsAreTargets(init, target);
      assert forall copy :: copy in copies <==> copy in init || copy == last;
    }
  }

  /** The locks a deletion takes: each target with a copy once, in ascending order. */
  method DeletionRound(copies: seq<Copy>) returns (round: seq<nat>)
    ensures Ascending(round)
    ensures forall t :: t in round <==>
      exists copy :: copy in copies && copy.succeeded && copy.path != "" && copy.target == t
    ensures forall i :: 0 < i < |round| ==> round[i - 1] < round[i]
  {
    var paths: map<nat, string> := map[];
    for i := 0 to |copies|
      invariant paths == Paths(copies[..i])
    {
      assert copies[..i + 1][..i] == copies[..i];
      if Present(copies[i]) {
        paths := paths[copies[i].target := copies[i].path];
      }
    }
    assert copies[..|copies|] == copies;
    round := Sorted(paths.Keys);
    forall t ensures t in Paths(copies) <==> exists copy :: copy in copies && Present(copy) && copy.target == t {
      PathsAreTargets(copies, t);
    }
  }

  // ------------------------------------------------------------ no cycle of waiters

  predicate WaitsFor(s: State, i: nat, j: nat) {
    i < |s| && j < |s| && Waiting(s[i]) && Holds(s[j], Wanted(s[i]))
  }

  /** Each worker on the chain waits for a lock the next one holds. */
  predicate WaitChain(s: State, chain: seq<nat>) {
    forall k :: 0 <= k < |chain| - 1 ==> WaitsFor(s, chain[k], chain[k + 1])
  }

  lemma WaitsForMore(s: State, i: nat, j: nat)
    requires Invariant(s) && WaitsFor(s, i, j) && Waiting(s[j])
    ensures Wanted(s[i]) < Wanted(s[j])
  {
    assert WorkerOk(s[j]) && s[j].rounds[0] in s[j].rounds;
  }

  lemma {:induction false} ChainsAscend(s: State, chain: seq<nat>)
    requires Invariant(s) && |chain| >= 3 && WaitChain(s, chain)
    ensures WaitsFor(s, chain[0], chain[1]) && WaitsFor(s, chain[|chain| - 2], chain[|chain| - 1])
    ensures Wanted(s[chain[0]]) < Wanted(s[chain[|chain| - 2]])
  {
    var n := |chain|;
    assert WaitsFor(s, chain[0], chain[1]) && WaitsFor(s, chain[1], chain[2])
        && WaitsFor(s, chain[n - 2], chain[n - 1]);
    WaitsForMore(s, chain[0], chain[1]);
    if n > 3 {
      var rest := chain[1..];
      forall k | 0 <= k < |rest| - 1 ensures WaitsFor(s, rest[k], rest[k + 1]) {
        assert WaitsFor(s, chain[k + 1], chain[k + 2]);
      }
      ChainsAscend(s, rest);
    }
  }

  /** No reachable state holds a cycle of workers each waiting for the next. */
  lemma NoWaitCycle(s: State, chain: seq<nat>)
    requires Invariant(s) && |chain| >= 2 && WaitChain(s, chain)
    ensures chain[0] != chain[|chain| - 1]
  {
    var n := |chain|;
    assert WaitsFor(s, chain[n - 2], chain[n - 1]);
    if chain[0] == chain[n - 1] {
      assert WaitsFor(s, chain[0], chain[1]);
      WaitsForMore(s, chain[n - 2], chain[n - 1]);
      if n > 2 { ChainsAscend(s, chain); }
    }
  }

  /** Whatever deletions, retention passes and uploads arrive, no run ends in a cycle of waiters. */
  lemma RunsNeverDeadlock(es: seq<Event>, chain: seq<nat>)
    requires IsRun([], es) && |chain| >= 2 && WaitChain(RunTo([], es), chain)
    ensures chain[0] != chain[|chain| - 1]
  {
    RunsKeepInvariant([], es);
    NoWaitCycle(RunTo([], es), chain);
  }

  // ------------------------------------------------------------ progress

  ghost predicate CanStep(s: State, i: nat) {
    Enabled(s, Acquire(i)) || Enabled(s, Release(i))
  }

  /** Follows the waiting from a worker to one that can move. */
  lemma {:induction false} SomeoneCanStep(s: State, i: nat, above: nat) returns (j: nat)
    requires Invariant(s) && i < |s| && !Finished(s[i])
    requires Waiting(s[i]) ==> Wanted(s[i]) <= above
    requires forall k :: 0 <= k < |s| && Waiting(s[k]) ==> Wanted(s[k]) <= above
    ensures j < |s| && CanStep(s, j)
    decreases if Waiting(s[i]) then above - Wanted(s[i]) + 1 else 0
  {
    assert WorkerOk(s[i]);
    if !Waiting(s[i]) || Free(s, Wanted(s[i])) {
      j := i;
    } else {
      var w :| w in s && Holds(w, Wanted(s[i]));
      var k :| 0 <= k < |s| && s[k] == w;
      if Waiting(s[k]) { WaitsForMore(s, i, k); }
      j := SomeoneCanStep(s, k, above);
    }
  }

  function Highest(s: State): (r: nat)
    ensures forall k :: 0 <= k < |s| && Waiting(s[k]) ==> Wanted(s[k]) <= r
  {
    if s == [] then 0
    else
      var rest := Highest(s[..|s| - 1]);
      var last := s[|s| - 1];
      assert forall k :: 0 <= k < |s| - 1 ==> s[k] == s[..|s| - 1][k];
      if Waiting(last) && Wanted(last) > rest then Wanted(last) else rest
  }

  lemma NeverStuck(s: State, i: nat)
    requires Invariant(s) && i < |s| && !Finished(s[i])
    ensures exists j: nat :: j < |s| && CanStep(s, j)
  {
    var j := SomeoneCanStep(s, i, Highest(s));
  }

  function Rounds(rounds: seq<seq<nat>>): nat {
    if rounds == [] then 0 else |rounds[0]| + 1 + Rounds(rounds[1..])
  }

  /** Steps a worker has left. */
  function Left(w: Worker): int {
    Rounds(w.rounds) - w.held
  }

  function Work(s: State): int {
    if s == [] then 0 else Left(s[0]) + Work(s[1..])
  }

  lemma {:induction false} WorkChanges(s: State, i: nat, w: Worker)
    requires i < |s|
    ensures Work(s[i := w]) == Work(s) - Left(s[i]) + Left(w)
  {
    if i > 0 {
      assert s[i := w][1..] == s[1..][i - 1 := w];
      WorkChanges(s[1..], i - 1, w);
    } else {
      assert s[i := w][1..] == s[1..];
    }
  }

  /** Every step of a worker leaves one step less to do. */
  lemma StepsWork(s: State, e: Event)
    requires Invariant(s) && Enabled(s, e) && !e.Arrive?
    ensures Work(Next(s, e)) == Work(s) - 1
  {
    WorkChanges(s, e.w, Next(s, e)[e.w]);
  }

  lemma {:induction false} WorkIsLeft(s: State)
    requires forall w :: w in s ==> WorkerOk(w)
    ensures Work(s) >= 0
  {
    if s != [] {
      assert WorkerOk(s[0]);
      WorkIsLeft(s[1..]);
    }
  }

  lemma SomeWorkIsLeft(s: State)
    requires Invariant(s)
    ensures Work(s) >= 0
  {
    WorkIsLeft(s);
  }

  /** From every reachable state, whatever order was followed so far, all workers can finish. */
  lemma {:induction false} EveryoneFinishes(s: State) returns (es: seq<Event>)
    requires Invariant(s)
    ensures IsRun(s, es) && |RunTo(s, es)| == |s| && forall w :: w in RunTo(s, es) ==> Finished(w)
    decreases Work(s)
  {
    hide Enabled, Next, Work, Finished, Invariant;
    if forall w :: w in s ==> Finished(w) {
      return [];
    }
    var w :| w in s && !Finished(w);
    var i :| 0 <= i < |s| && s[i] == w;
    NeverStuck(s, i);
    var j: nat :| j < |s| && CanStep(s, j);
    var e := if Enabled(s, Acquire(j)) then Acquire(j) else Release(j);
    StepsWork(s, e);
    StepKeepsInvariant(s, e);
    NobodyLeaves(s, e);
    SomeWorkIsLeft(Next(s, e));
    var rest := EveryoneFinishes(Next(s, e));
    es := [e] + rest;
    assert es[1..] == rest;
  }

  lemma NobodyLeaves(s: State, e: Event)
    requires Enabled(s, e)
    ensures |Next(s, e)| == |s| + if e.Arrive? then 1 else 0
  {
  }

  /** A worker that arrives is one more to finish, and all of them can. */
  lemma NewcomersFinish(s: State, rounds: seq<seq<nat>>) returns (es: seq<Event>)
    requires Invariant(s) && Ordered(rounds)
    ensures IsRun(s, es) && |RunTo(s, es)| == |s| + 1 && forall w :: w in RunTo(s, es) ==> Finished(w)
  {
    hide Invariant, Finished;
    var e := Arrive(rounds);
    StepKeepsInvariant(s, e);
    NobodyLeaves(s, e);
    var rest := EveryoneFinishes(Next(s, e));
    es := [e] + rest;
    assert es[1..] == rest;
  }

  /** The order matters: two workers that take two locks in opposite orders can come to block each other for good. */
  lemma OppositeOrdersBlock()
    ensures var start, es := [Worker([[1, 2]], 0), Worker([[2, 1]], 0)], [Acquire(0), Acquire(1)];
      && IsRun(start, es)
      && WaitChain(RunTo(start, es), [0, 1, 0])
      && forall i: nat :: !CanStep(RunTo(start, es), i)
  {
    var start := [Worker([[1, 2]], 0), Worker([[2, 1]], 0)];
    var mid := [Worker([[1, 2]], 1), Worker([[2, 1]], 0)];
    var s := [Worker([[1, 2]], 1), Worker([[2, 1]], 1)];
    assert [1, 2][..1] == [1] && [2, 1][..1] == [2] && [1, 2][..0] == [] && [2, 1][..0] == [];
    assert Next(start, Acquire(0)) == mid && Next(mid, Acquire(1)) == s;
    assert [Acquire(0), Acquire(1)][1..] == [Acquire(1)] && [Acquire(1)][1..] == [];
    assert IsRun(mid, [Acquire(1)]) && RunTo(mid, [Acquire(1)]) == s;
    assert Holds(s[0], 1) && Holds(s[1], 2);
    assert s[0] in s && s[1] in s;
  }
}
