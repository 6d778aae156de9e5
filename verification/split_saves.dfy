/**
 * Finding and saving a record taken apart. The protocol machine treats them as one step;
 * here one more kind of handler, an agent's report, finds the row in one step and writes
 * it back, as it was read, in a later one.
 */
module SplitSaves {
  import opened ByteStrings
  import opened Commands
  import opened AgentProtocol

  /** A report whose record was found running; without a status it only appends to the log. */
  datatype Found = Found(rec: RecordId, reported: Option<RecordStatus>)

  datatype SplitState = SplitState(machine: State, found: map<nat, Found>)

  datatype SplitEvent = Whole(e: Event) | Find(k: nat, cmd: nat, reported: Option<RecordStatus>) | Save(k: nat)

  /** Agents log while they execute, and report as the machine lets them. */
  predicate Sent(s: State, cmd: nat, reported: Option<RecordStatus>) {
    match reported
    case None => cmd in s.agents && s.agents[cmd] == Executing
    case Some(RecordSuccess) => UpdateSuccess(cmd) in s.net
    case Some(RecordFailed) => UpdateFailed(cmd) in s.net
    case _ => false
  }

  ghost predicate SplitEnabled(s: SplitState, e: SplitEvent) {
    match e
    case Whole(e) => Enabled(s.machine, e)
    case Find(k, cmd, reported) =>
      && k !in s.found && Known(s.machine, cmd) && Sent(s.machine, cmd, reported)
      && var rec := s.machine.rows[cmd].kind.record; rec in s.machine.records && s.machine.records[rec] == RecordRunning
    case Save(k) => k in s.found
  }

  /** Saving writes back the whole row: the reported status, or the one that was read. */
  function Saved(records: Records, f: Found): Records {
    records[f.rec := if f.reported.Some? then f.reported.value else RecordRunning]
  }

  ghost function SplitNext(s: SplitState, e: SplitEvent): SplitState
    requires SplitEnabled(s, e)
  {
    match e
    case Whole(e) => s.(machine := Next(s.machine, e))
    case Find(k, cmd, reported) => s.(found := s.found[k := Found(s.machine.rows[cmd].kind.record, reported)])
    case Save(k) => SplitState(s.machine.(records := Saved(s.machine.records, s.found[k])), s.found - {k})
  }

  ghost predicate IsSplitRun(s: SplitState, es: seq<SplitEvent>)
    decreases |es|
  {
    es == [] || (SplitEnabled(s, es[0]) && IsSplitRun(SplitNext(s, es[0]), es[1..]))
  }

  ghost function SplitRunTo(s: SplitState, es: seq<SplitEvent>): SplitState
    requires IsSplitRun(s, es)
    decreases |es|
  {
    if es == [] then s else SplitRunTo(SplitNext(s, es[0]), es[1..])
  }

  // ------------------------------------------------------------ which interleavings go wrong

  /** What the report would do as a single step: nothing unless the record is there and running. */
  function OneStep(records: Records, f: Found): Records {
    if f.rec in records && records[f.rec] == RecordRunning then Saved(records, f) else records
  }

  /** The steps that take a record out of `running`. */
  ghost predicate Ends(s: State, e: Event, rec: RecordId)
    requires Enabled(s, e)
  {
    match e
    case OnRecord(UpdateRecord(m)) => s.rows[m.cmd].kind.record == rec
    case OnRecord(FinalizeRecord(r, _)) => r == rec
    case OnRecord(DeleteRecord(r)) => r == rec
    case OnRecord(MasterRestart) => !Named(s.rows, rec)
    case OnHandler(h, FailLinkedRecord) => s.handlers[h].cmd in s.rows && s.rows[s.handlers[h].cmd].kind == Linked(rec)
    case _ => false
  }

  predicate IsRunning(s: State, rec: RecordId) {
    rec in s.records && s.records[rec] == RecordRunning
  }

  lemma RecordStepEnds(s: State, e: RecordEvent, rec: RecordId)
    requires OwnershipOk(s) && RecordEnabled(s, e) && IsRunning(s, rec)
    ensures IsRunning(RecordNext(s, e), rec) <==> !Ends(s, OnRecord(e), rec)
  {
    hide Named;
  }

  lemma HandlerStepEnds(s: State, h: nat, e: HandlerEvent, rec: RecordId)
    requires HandlerEnabled(s, h, e) && IsRunning(s, rec)
    ensures IsRunning(Work(s, h, e), rec) <==> !Ends(s, OnHandler(h, e), rec)
  {
  }

  lemma StepEnds(s: State, e: Event, rec: RecordId)
    requires OwnershipOk(s) && Enabled(s, e) && IsRunning(s, rec)
    ensures IsRunning(Next(s, e), rec) <==> !Ends(s, e, rec)
  {
    hide OwnershipOk, RecordEnabled, AgentEnabled, HandlerEnabled, RecordNext, AgentNext, Work, NextHandler;
    match e
    case OnRecord(r) => RecordStepEnds(s, r, rec);
    case OnAgent(cmd, a) => AgentStepKeepsRest(s, cmd, a);
    case OnHandler(h, m) => HandlerStepEnds(s, h, m, rec);
  }

  /** Some step of this run takes the record out of `running`. */
  ghost predicate EndsWithin(s: State, es: seq<Event>, rec: RecordId)
    requires IsRun(s, es)
    decreases |es|
  {
    es != [] && (Ends(s, es[0], rec) || EndsWithin(Next(s, es[0]), es[1..], rec))
  }

  lemma {:induction false} RunEnds(s: State, es: seq<Event>, rec: RecordId)
    requires Invariant(s) && IsRun(s, es) && IsRunning(s, rec)
    ensures IsRunning(RunTo(s, es), rec) <==> !EndsWithin(s, es, rec)
    decreases |es|
  {
    hide Invariant, Enabled, Next, Ends, IsRunning;
    if es != [] {
      InvariantOwns(s);
      StepKeepsInvariant(s, es[0]);
      StepEnds(s, es[0], rec);
      var t := Next(s, es[0]);
      if IsRunning(t, rec) {
        RunEnds(t, es[1..], rec);
      } else {
        GivenOut(s, es[0], rec);
        NotRunningStays(t, es[1..], rec);
      }
    }
  }

  lemma GivenOut(s: State, e: Event, rec: RecordId)
    requires OwnershipOk(s) && Enabled(s, e) && IsRunning(s, rec)
    ensures rec in Next(s, e).used
  {
    hide AgentEnabled, HandlerEnabled, AgentNext, Work, NextHandler;
    match e
    case OnRecord(r) =>
    case OnAgent(cmd, a) => AgentStepKeepsRest(s, cmd, a);
    case OnHandler(h, m) => HandlerStepKeepsOwners(s, h, m);
  }

  lemma NotRunningStays(s: State, es: seq<Event>, rec: RecordId)
    requires Invariant(s) && rec in s.used && !IsRunning(s, rec) && IsRun(s, es)
    ensures !IsRunning(RunTo(s, es), rec)
  {
    hide CommandOk, HandlerOk, IsRun, RunTo;
    var status := if rec in s.records then s.records[rec] else RecordFailed;
    FinishedRecordsStay(s, es, rec, status);
  }

  /**
   * The interleavings that go wrong are exactly these: between find and save, some step
   * ended the record, and it is gone now or has another status than the one reported.
   * Every other save does what a single step would do in its place.
   */
  lemma SplitSaveGoesWrongIff(s: State, es: seq<Event>, f: Found)
    requires Invariant(s) && IsRun(s, es) && IsRunning(s, f.rec)
    ensures var records := RunTo(s, es).records;
      Saved(records, f) != OneStep(records, f) <==>
        EndsWithin(s, es, f.rec) && (f.rec !in records || f.reported != Some(records[f.rec]))
  {
    hide Invariant, IsRun, RunTo, EndsWithin;
    RunEnds(s, es, f.rec);
    var records := RunTo(s, es).records;
    assert f.rec in Saved(records, f);
  }

  // ------------------------------------------------------------ one that does

  lemma Prepend(s: SplitState, e: SplitEvent, rest: seq<SplitEvent>) returns (es: seq<SplitEvent>)
    requires SplitEnabled(s, e) && IsSplitRun(SplitNext(s, e), rest)
    ensures IsSplitRun(s, es) && SplitRunTo(s, es) == SplitRunTo(SplitNext(s, e), rest)
  {
    hide SplitEnabled, SplitNext;
    es := [e] + rest;
    assert es[1..] == rest;
  }

  const REC := BackupRecord(1)

  /** A run_task command just handed to its agent, and its record. */
  const HANDED_OUT := State(map[1 := Command(1, Linked(REC), Dispatched, "", "", 0, 0)], map[REC := RecordRunning],
                            map[1 := Executing], map[], {}, {}, {}, {}, map[1 := 1], {REC})

  /** The same after success was reported, answered and submitted. */
  const SUBMITTED := HANDED_OUT.(rows := map[1 := Command(1, Linked(REC), Succeeded, "", "", 0, 0)],
                                 records := map[REC := RecordSuccess], agents := map[1 := Submitting(true)],
                                 net := {UpdateSuccess(1), Submit(1, true)}, acked := {1})

  lemma HandingOut() returns (es: seq<SplitEvent>)
    ensures IsSplitRun(SplitState(INITIAL, map[]), es)
    ensures SplitRunTo(SplitState(INITIAL, map[]), es) == SplitState(HANDED_OUT, map[])
  {
    var s0 := SplitState(INITIAL, map[]);
    var e0, e1 := Whole(OnRecord(CreateRecord(REC))), Whole(OnRecord(EnqueueLinked(1, 1, REC, 0)));
    var e2, e3 := Whole(OnHandler(0, PollRead(1, 1))), Whole(OnHandler(0, PollUpdate(0, true)));
    var s1 := SplitNext(s0, e0);
    var s2 := SplitNext(s1, e1);
    var s3 := SplitNext(s2, e2);
    var s4 := SplitNext(s3, e3);
    assert s4 == SplitState(HANDED_OUT, map[]);
    es := Prepend(s3, e3, []);
    es := Prepend(s2, e2, es);
    es := Prepend(s1, e1, es);
    es := Prepend(s0, e0, es);
  }

  /** Success reported and answered, but not yet submitted. */
  const REPORTED := HANDED_OUT.(records := map[REC := RecordSuccess], agents := map[1 := Submitting(true)],
                                net := {UpdateSuccess(1)}, acked := {1})

  /** Meanwhile a log line has found the record running. */
  lemma Reporting() returns (es: seq<SplitEvent>)
    ensures var found := map[0 := Found(REC, None)];
      && IsSplitRun(SplitState(HANDED_OUT, found), es)
      && SplitRunTo(SplitState(HANDED_OUT, found), es) == SplitState(REPORTED, found)
  {
    hide StillActive, FailRecordOf, Restarted;
    var s0 := SplitState(HANDED_OUT, map[0 := Found(REC, None)]);
    var e0, e1 := Whole(OnAgent(1, ReportSuccess)), Whole(OnRecord(UpdateRecord(UpdateSuccess(1))));
    var e2 := Whole(OnAgent(1, SuccessAnswered(true)));
    var s1 := SplitNext(s0, e0);
    var s2 := SplitNext(s1, e1);
    var s3 := SplitNext(s2, e2);
    assert s3.machine == REPORTED;
    hide IsSplitRun, SplitRunTo;
    NoSplitSteps(s3);
    es := Prepend(s2, e2, []);
    es := Prepend(s1, e1, es);
    es := Prepend(s0, e0, es);
  }

  lemma SubmittingResult() returns (es: seq<SplitEvent>)
    ensures var found := map[0 := Found(REC, None)];
      && IsSplitRun(SplitState(REPORTED, found), es)
      && SplitRunTo(SplitState(REPORTED, found), es) == SplitState(SUBMITTED, found)
  {
    hide StillActive, FailRecordOf, Restarted;
    var s3 := SplitState(REPORTED, map[0 := Found(REC, None)]);
    var e3 := Whole(OnAgent(1, SendSubmit));
    var e4, e5 := Whole(OnHandler(0, SubmitRead(1, true, "", ""))), Whole(OnHandler(0, SubmitComplete));
    var s4 := SplitNext(s3, e3);
    var s5 := SplitNext(s4, e4);
    var s6 := SplitNext(s5, e5);
    assert s6.machine == SUBMITTED;
    hide IsSplitRun, SplitRunTo;
    NoSplitSteps(s6);
    es := Prepend(s5, e5, []);
    es := Prepend(s4, e4, es);
    es := Prepend(s3, e3, es);
  }

  lemma Succeeding() returns (es: seq<SplitEvent>)
    ensures var found := map[0 := Found(REC, None)];
      && IsSplitRun(SplitState(HANDED_OUT, found), es)
      && SplitRunTo(SplitState(HANDED_OUT, found), es) == SplitState(SUBMITTED, found)
  {
    hide IsSplitRun, SplitRunTo;
    var first := Reporting();
    var second := SubmittingResult();
    SplitRunsJoin(SplitState(HANDED_OUT, map[0 := Found(REC, None)]), first, second);
    es := first + second;
  }

  lemma {:induction false} SplitRunsJoin(s: SplitState, es: seq<SplitEvent>, fs: seq<SplitEvent>)
    requires IsSplitRun(s, es) && IsSplitRun(SplitRunTo(s, es), fs)
    ensures IsSplitRun(s, es + fs) && SplitRunTo(s, es + fs) == SplitRunTo(SplitRunTo(s, es), fs)
    decreases |es|
  {
    hide SplitEnabled, SplitNext;
    if es == [] {
      assert es + fs == fs;
    } else {
      SplitRunsJoin(SplitNext(s, es[0]), es[1..], fs);
      assert (es + fs)[1..] == es[1..] + fs;
    }
  }

  /**
   * A log line that found its record running and is saved after the agent's success was
   * stored: the command has succeeded and the record runs again, with no one to end it.
   */
  lemma LateLogRevivesRecord() returns (es: seq<SplitEvent>)
    ensures IsSplitRun(SplitState(INITIAL, map[]), es)
    ensures var s := SplitRunTo(SplitState(INITIAL, map[]), es).machine;
      1 in s.rows && s.rows[1].status == Succeeded && s.rows[1].kind == Linked(REC)
          && s.records == map[REC := RecordRunning] && !Coupled(s, 1)
  {
    var s0 := SplitState(INITIAL, map[]);
    var found := map[0 := Found(REC, None)];
    var first := HandingOut();
    var middle := Succeeding();
    hide IsSplitRun, SplitRunTo;
    NoSplitSteps(SplitNext(SplitState(SUBMITTED, found), Save(0)));
    var last := Prepend(SplitState(SUBMITTED, found), Save(0), []);
    SplitRunsJoin(SplitState(HANDED_OUT, found), middle, last);
    var rest := Prepend(SplitState(HANDED_OUT, map[]), Find(0, 1, None), middle + last);
    SplitRunsJoin(s0, first, rest);
    es := first + rest;
  }

  lemma NoSplitSteps(s: SplitState)
    ensures IsSplitRun(s, []) && SplitRunTo(s, []) == s
  {
  }
}
