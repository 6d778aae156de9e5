/**
 * Starting a backup task: any number of startTask calls run at once, each locking
 * its task, looking for a running record of it and only then creating one. In
 * between, records finish, are deleted, and the master restarts.
 */
module TaskStart {
  datatype Status = Running | Success | Failed

  datatype Record = Record(task: nat, status: Status)

  datatype Phase = Waiting | Locked | Checked | Created

  datatype Caller = Caller(task: nat, phase: Phase)

  /** `used` remembers every record id ever given out. */
  datatype State = State(records: map<nat, Record>, callers: map<nat, Caller>, locks: map<nat, nat>, used: set<nat>)

  const INITIAL := State(map[], map[], map[], {})

  datatype Event =
    | Call(c: nat, task: nat)
    | AcquireLock(c: nat)
    | EnsureNotRunning(c: nat)
    | CreateRecord(c: nat, rec: nat)
    | Return(c: nat)
    | Finish(rec: nat, status: Status)
    | DeleteRecord(rec: nat)
    | Restart(named: set<nat>)

  predicate RunningRecord(s: State, rec: nat, task: nat) {
    rec in s.records && s.records[rec] == Record(task, Running)
  }

  predicate IsRunning(s: State, task: nat) {
    exists r :: r in s.records && s.records[r] == Record(task, Running)
  }

  predicate InPhase(s: State, c: nat, phase: Phase) {
    c in s.callers && s.callers[c].phase == phase
  }

  /** With `locking` off, a caller does not wait for its lock. */
  predicate Enabled(s: State, e: Event, locking: bool) {
    match e
    case Call(c, _) => c !in s.callers
    case AcquireLock(c) => InPhase(s, c, Waiting) && (locking ==> s.callers[c].task !in s.locks)
    case EnsureNotRunning(c) => InPhase(s, c, Locked)
    case CreateRecord(c, rec) => InPhase(s, c, Checked) && rec !in s.used
    case Return(c) => c in s.callers && s.callers[c].phase != Waiting
    case Finish(rec, status) => rec in s.records && status != Running
    case DeleteRecord(rec) => rec in s.records
    case Restart(_) => true
  }

  function Moved(s: State, c: nat, phase: Phase): State
    requires c in s.callers
  {
    s.(callers := s.callers[c := s.callers[c].(phase := phase)])
  }

  function Left(s: State, c: nat): State
    requires c in s.callers
  {
    s.(callers := s.callers - {c}, locks := s.locks - {s.callers[c].task})
  }

  function Next(s: State, e: Event, locking: bool): State
    requires Enabled(s, e, locking)
  {
    match e
    case Call(c, task) => s.(callers := s.callers[c := Caller(task, Waiting)])
    case AcquireLock(c) => Moved(s, c, Locked).(locks := s.locks[s.callers[c].task := c])
    case EnsureNotRunning(c) => if IsRunning(s, s.callers[c].task) then Left(s, c) else Moved(s, c, Checked)
    case CreateRecord(c, rec) =>
      Moved(s, c, Created).(records := s.records[rec := Record(s.callers[c].task, Running)], used := s.used + {rec})
    case Return(c) => Left(s, c)
    case Finish(rec, status) => s.(records := s.records[rec := s.records[rec].(status := status)])
    case DeleteRecord(rec) => s.(records := s.records - {rec})
    case Restart(named) =>
      State(map r | r in s.records :: if s.records[r].status == Running
          && r !in named then s.records[r].(status := Failed) else s.records[r],
            map[], map[], s.used)
  }

  /** Records may be deleted and the master may restart at any time, and any task may be called for. */
  lemma TroubleIsAlwaysPossible(s: State, rec: nat, c: nat, task: nat, named: set<nat>)
    ensures rec in s.records ==> Enabled(s, DeleteRecord(rec), true)
    ensures Enabled(s, Restart(named), true)
    ensures c !in s.callers ==> Enabled(s, Call(c, task), true)
  {
  }

  predicate IsRun(s: State, es: seq<Event>, locking: bool)
    decreases |es|
  {
    es == [] || (Enabled(s, es[0], locking) && IsRun(Next(s, es[0], locking), es[1..], locking))
  }

  function RunTo(s: State, es: seq<Event>, locking: bool): State
    requires IsRun(s, es, locking)
    decreases |es|
  {
    if es == [] then s else RunTo(Next(s, es[0], locking), es[1..], locking)
  }

  /** At most one running record per task. */
  ghost predicate OneRunning(s: State) {
    forall r, q, task :: RunningRecord(s, r, task) && RunningRecord(s, q, task) ==> r == q
  }

  ghost predicate Invariant(s: State) {
    && OneRunning(s)
    && (forall c :: c in s.callers && s.callers[c].phase != Waiting ==>
      s.callers[c].task in s.locks && s.locks[s.callers[c].task] == c)
    && (forall c, r :: InPhase(s, c, Checked) ==> !RunningRecord(s, r, s.callers[c].task))
  }

  lemma StepKeepsInvariant(s: State, e: Event)
    requires Invariant(s) && Enabled(s, e, true)
    ensures Invariant(Next(s, e, true))
  {
    var t := Next(s, e, true);
    if e.EnsureNotRunning? {
      forall r | RunningRecord(s, r, s.callers[e.c].task) ensures IsRunning(s, s.callers[e.c].task) {
        assert r in s.records && s.records[r] == Record(s.callers[e.c].task, Running);
      }
    }
    forall r, task | RunningRecord(t, r, task) && !(e.CreateRecord? && r == e.rec) ensures RunningRecord(s, r, task) { }
  }

  /** However calls, finishing records, deletions and restarts interleave, no task ever runs twice at once. */
  lemma {:induction false} RunsKeepOneRunning(s: State, es: seq<Event>)
    requires Invariant(s) && IsRun(s, es, true)
    ensures Invariant(RunTo(s, es, true)) && OneRunning(RunTo(s, es, true))
    decreases |es|
  {
    hide Enabled, Next, OneRunning;
    if es != [] {
      StepKeepsInvariant(s, es[0]);
      RunsKeepOneRunning(Next(s, es[0], true), es[1..]);
    }
  }

  /** From the start of the server on, no reachable state has a task running twice. */
  lemma NeverTwoRunning(es: seq<Event>)
    requires IsRun(INITIAL, es, true)
    ensures OneRunning(RunTo(INITIAL, es, true))
  {
    NothingRuns();
    RunsKeepOneRunning(INITIAL, es);
  }

  lemma NothingRuns()
    ensures Invariant(INITIAL)
  {
  }

  lemma {:induction false} RunThenStep(s: State, es: seq<Event>, e: Event)
    requires IsRun(s, es, true) && Enabled(RunTo(s, es, true), e, true)
    ensures IsRun(s, es + [e], true) && RunTo(s, es + [e], true) == Next(RunTo(s, es, true), e, true)
    decreases |es|
  {
    hide Enabled, Next;
    if es == [] {
      assert [e][1..] == [] && es + [e] == [e];
      assert IsRun(Next(s, e, true), [], true);
    } else {
      RunThenStep(Next(s, es[0], true), es[1..], e);
      assert (es + [e])[1..] == es[1..] + [e];
    }
  }

  /** A call whose task is neither locked nor running starts it, and leaves no lock behind. */
  lemma FreeTaskStarts(s: State, c: nat, task: nat, rec: nat) returns (es: seq<Event>)
    requires c !in s.callers && task !in s.locks && rec !in s.used && !IsRunning(s, task)
    ensures IsRun(s, es, true)
    ensures RunTo(s, es, true) == s.(records := s.records[rec := Record(task, Running)], used := s.used + {rec})
  {
    hide IsRun, RunTo, IsRunning;
    es := [];
    NoSteps(s);
    RunThenStep(s, es, Call(c, task));
    es := es + [Call(c, task)];
    RunThenStep(s, es, AcquireLock(c));
    es := es + [AcquireLock(c)];
    assert RunTo(s, es, true) == s.(callers := s.callers[c := Caller(task, Locked)], locks := s.locks[task := c]);
    StillFree(s, RunTo(s, es, true), task);
    RunThenStep(s, es, EnsureNotRunning(c));
    es := es + [EnsureNotRunning(c)];
    RunThenStep(s, es, CreateRecord(c, rec));
    es := es + [CreateRecord(c, rec)];
    RunThenStep(s, es, Return(c));
    es := es + [Return(c)];
    assert s.callers[c := Caller(task, Created)] - {c} == s.callers && s.locks[task := c] - {task} == s.locks;
  }

  lemma NoSteps(s: State)
    ensures IsRun(s, [], true) && RunTo(s, [], true) == s
  {
  }

  lemma StillFree(s: State, t: State, task: nat)
    requires t.records == s.records
    ensures IsRunning(t, task) <==> IsRunning(s, task)
  {
  }

  /** Once its record has finished, or was deleted, the backup task can be started again. */
  lemma FinishedTaskStartsAgain(s: State, c: nat, task: nat, previous: nat, deleted: bool, status: Status, rec: nat)
    returns (es: seq<Event>)
    requires Invariant(s) && RunningRecord(s, previous, task) && status != Running
    requires c !in s.callers && task !in s.locks && rec !in s.used && rec !in s.records
    ensures IsRun(s, es, true)
    ensures RunTo(s, es, true).records ==
      (if deleted then s.records - {previous} else s.records[previous := Record(task, status)])
        [rec := Record(task, Running)]
    ensures RunTo(s, es, true).callers == s.callers && RunTo(s, es, true).locks == s.locks
  {
    var e := if deleted then DeleteRecord(previous) else Finish(previous, status);
    var t := Next(s, e, true);
    forall r ensures !RunningRecord(t, r, task) {
      assert RunningRecord(t, r, task) ==> RunningRecord(s, r, task);
    }
    NotRunning(t, task);
    var fs := FreeTaskStarts(t, c, task, rec);
    es := [e] + fs;
    assert es[1..] == fs;
  }

  lemma NotRunning(s: State, task: nat)
    requires forall r :: !RunningRecord(s, r, task)
    ensures !IsRunning(s, task)
  {
    if IsRunning(s, task) {
      var r :| r in s.records && s.records[r] == Record(task, Running);
      assert RunningRecord(s, r, task);
    }
  }

  /** Two calls both look before either creates its record. */
  lemma WithoutLockTwoRun()
    ensures exists es :: IsRun(INITIAL, es, false) && !OneRunning(RunTo(INITIAL, es, false))
  {
    hide IsRun, RunTo;
    var s1 := Next(INITIAL, Call(0, 7), false);
    var s2 := Next(s1, Call(1, 7), false);
    var s3 := Next(s2, AcquireLock(0), false);
    var s4 := Next(s3, AcquireLock(1), false);
    var s5 := Next(s4, EnsureNotRunning(0), false);
    var s6 := Next(s5, EnsureNotRunning(1), false);
    var s7 := Next(s6, CreateRecord(0, 10), false);
    var s8 := Next(s7, CreateRecord(1, 11), false);
    assert !OneRunning(s8) by { assert RunningRecord(s8, 10, 7) && RunningRecord(s8, 11, 7); }
    assert Enabled(s7, CreateRecord(1, 11), false) && Enabled(s6, CreateRecord(0, 10), false);
    assert Enabled(s5, EnsureNotRunning(1), false) && Enabled(s4, EnsureNotRunning(0), false);
    assert Enabled(s3, AcquireLock(1), false) && Enabled(s2, AcquireLock(0), false);
    assert Enabled(s1, Call(1, 7), false) && Enabled(INITIAL, Call(0, 7), false);
    hide OneRunning, RunningRecord, IsRunning, Next, Enabled;
    EmptyRun(s8);
    var e7 := Prepend(s7, CreateRecord(1, 11), []);
    var e6 := Prepend(s6, CreateRecord(0, 10), e7);
    var e5 := Prepend(s5, EnsureNotRunning(1), e6);
    var e4 := Prepend(s4, EnsureNotRunning(0), e5);
    var e3 := Prepend(s3, AcquireLock(1), e4);
    var e2 := Prepend(s2, AcquireLock(0), e3);
    var e1 := Prepend(s1, Call(1, 7), e2);
    var _ := Prepend(INITIAL, Call(0, 7), e1);
  }

  lemma EmptyRun(s: State)
    ensures IsRun(s, [], false) && RunTo(s, [], false) == s
  {
  }

  lemma Prepend(s: State, e: Event, rest: seq<Event>) returns (es: seq<Event>)
    requires Enabled(s, e, false) && IsRun(Next(s, e, false), rest, false)
    ensures IsRun(s, es, false) && RunTo(s, es, false) == RunTo(Next(s, e, false), rest, false)
  {
    hide Enabled, Next;
    es := [e] + rest;
    assert es[1..] == rest;
  }
}
