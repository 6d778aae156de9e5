/**
 * The master/agent protocol as an interleaved step machine. A master handler is
 * split wherever it touches the database, so what it read may be stale by the
 * time it writes; only a conditional UPDATE, and one find-then-save of a record,
 * is a single step. A request may be delivered late, again, or never.
 */
module AgentProtocol {
  import opened ByteStrings
  import opened Commands

  datatype RecordStatus = RecordRunning | RecordSuccess | RecordFailed

  type Records = map<RecordId, RecordStatus>

  /** What an agent is doing with a command it was handed. */
  datatype Phase = Executing | AwaitingAck | Submitting(success: bool)

  /** Requests of an agent that the master may process, any number of times. */
  datatype Message = UpdateSuccess(cmd: nat) | UpdateFailed(cmd: nat) | Submit(cmd: nat, success: bool)

  /** A master handler between two database calls; Failing is about to run failLinkedRecord. */
  datatype Handler =
    | Claiming(cmd: nat)
    | Completing(cmd: nat, success: bool, errorMessage: string, result: string)
    | Suspecting(cmd: nat, seen: Status)
    | Expiring(cmd: nat)
    | Failing(cmd: nat)

  /**
   * The database, the agents, the master's handlers and the network. `acked`,
   * `converged`, `handed` and `used` record history: success reports answered
   * without error, finished failLinkedRecord calls, how often a command was
   * handed to a poll, and record ids given out.
   */
  datatype State = State(rows: Rows, records: Records, agents: map<nat, Phase>, handlers: map<nat, Handler>,
                         net: set<Message>, starting: set<RecordId>,
                         acked: set<nat>, converged: set<nat>, handed: map<nat, nat>, used: set<RecordId>)

  const INITIAL := State(map[], map[], map[], map[], {}, {}, {}, {}, map[], {})

  /** Steps about records; a report of an agent is one find-then-save. */
  datatype RecordEvent =
    | CreateRecord(rec: RecordId)
    | FinalizeRecord(rec: RecordId, success: bool)
    | Abandon(rec: RecordId)
    | EnqueueLinked(cmd: nat, node: nat, rec: RecordId, now: int)
    | EnqueueOther(cmd: nat, node: nat, kind: Kind, now: int)
    | UpdateRecord(m: Message)
    | MasterRestart
    | DeleteRecord(rec: RecordId)

  /** Steps of the agent that was handed a command. */
  datatype AgentEvent =
    | ReportFailed
    | ReportSuccess
    | SuccessAnswered(ok: bool)
    | FinishOther(success: bool)
    | SendSubmit
    | Stop

  /** Steps of one master handler: poll, result submission, timeout monitor. */
  datatype HandlerEvent =
    | PollRead(node: nat, cmd: nat)
    | PollUpdate(now: int, delivered: bool)
    | SubmitRead(cmd: nat, success: bool, errorMessage: string, result: string)
    | SubmitComplete
    | MonitorRead(cmd: nat)
    | MonitorCheck(nodeSeen: bool, recordUpdated: bool)
    | MonitorExpire
    | FailLinkedRecord
    | Interrupted

  datatype Event = OnRecord(r: RecordEvent) | OnAgent(agent: nat, a: AgentEvent) | OnHandler(h: nat, m: HandlerEvent)

  // ------------------------------------------------------------ the pieces of a step

  predicate Known(s: State, cmd: nat) {
    cmd in s.rows && s.rows[cmd].kind.Linked?
  }

  /** Saves the record unless it is gone or already finished. */
  function Finish(records: Records, rec: RecordId, status: RecordStatus): Records {
    if rec in records && records[rec] == RecordRunning then records[rec := status] else records
  }

  /** A lease: only a dispatched command with a running record is kept alive, by its node or that record. */
  predicate StillActive(s: State, cmd: nat, seen: Status, nodeSeen: bool, recordUpdated: bool) {
    && seen == Dispatched && Known(s, cmd)
    && s.rows[cmd].kind.record in s.records && s.records[s.rows[cmd].kind.record] == RecordRunning
    && (nodeSeen || recordUpdated)
  }

  /** Records some pending or dispatched command names. */
  predicate Named(rows: Rows, rec: RecordId) {
    exists c :: c in rows && Active(rows[c].status) && rows[c].kind == Linked(rec)
  }

  /** What a restart makes of the records: running ones no active command names have failed. */
  ghost function Restarted(rows: Rows, records: Records): Records {
    map r | r in records :: if records[r] == RecordRunning && !Named(rows, r) then RecordFailed else records[r]
  }

  function Handed(s: State, cmd: nat): nat {
    if cmd in s.handed then s.handed[cmd] else 0
  }

  // ------------------------------------------------------------ steps

  ghost predicate Enabled(s: State, e: Event) {
    match e
    case OnRecord(r) => RecordEnabled(s, r)
    case OnAgent(cmd, a) => cmd in s.agents && AgentEnabled(s, cmd, a)
    case OnHandler(h, m) => HandlerEnabled(s, h, m)
  }

  ghost function Next(s: State, e: Event): State
    requires Enabled(s, e)
  {
    match e
    case OnRecord(r) => RecordNext(s, r)
    case OnAgent(cmd, a) => AgentNext(s, cmd, a)
    case OnHandler(h, m) =>
      var after := NextHandler(s, h, m);
      Work(s, h, m).(handlers := if after.Some? then s.handlers[h := after.value] else s.handlers - {h})
  }

  predicate RecordEnabled(s: State, e: RecordEvent) {
    match e
    case CreateRecord(rec) => rec !in s.used
    case FinalizeRecord(rec, _) => rec in s.starting
    case Abandon(rec) => rec in s.starting
    case EnqueueLinked(cmd, _, rec, _) => cmd !in s.rows && rec in s.starting
    case EnqueueOther(cmd, _, kind, _) => cmd !in s.rows && !kind.Linked?
    case UpdateRecord(m) => m in s.net && !m.Submit? && Known(s, m.cmd) && s.rows[m.cmd].kind.record in s.records
    case MasterRestart => true
    case DeleteRecord(rec) => rec in s.records
  }

  ghost function RecordNext(s: State, e: RecordEvent): State
    requires RecordEnabled(s, e)
  {
    match e
    case CreateRecord(rec) =>
      s.(records := s.records[rec := RecordRunning], starting := s.starting + {rec}, used := s.used + {rec})
    case FinalizeRecord(rec, success) =>
      s.(records := if rec in s.records then s.records[rec := if success then RecordSuccess else RecordFailed]
          else s.records,
         starting := s.starting - {rec})
    case Abandon(rec) => s.(starting := s.starting - {rec})
    case EnqueueLinked(cmd, node, rec, now) =>
      s.(rows := s.rows[cmd := Command(node, Linked(rec), Pending, "", "", now, now)], starting := s.starting - {rec})
    case EnqueueOther(cmd, node, kind, now) =>
      s.(rows := s.rows[cmd := Command(node, kind, Pending, "", "", now, now)])
    case UpdateRecord(m) =>
      // a finished record is left alone, and the report still answered without error
      s.(records := Finish(s.records, s.rows[m.cmd].kind.record, if m.UpdateSuccess? then RecordSuccess
          else RecordFailed),
         acked := if m.UpdateSuccess? then s.acked + {m.cmd} else s.acked)
    case MasterRestart => s.(records := Restarted(s.rows, s.records), handlers := map[], starting := {})
    case DeleteRecord(rec) => s.(records := s.records - {rec})
  }

  predicate AgentEnabled(s: State, cmd: nat, e: AgentEvent)
    requires cmd in s.agents
  {
    match e
    case ReportFailed => s.agents[cmd] == Executing && Known(s, cmd)
    case ReportSuccess => s.agents[cmd] == Executing && Known(s, cmd)
    case SuccessAnswered(ok) => s.agents[cmd] == AwaitingAck && (ok ==> cmd in s.acked)
    case FinishOther(success) =>
      && s.agents[cmd] == Executing && cmd in s.rows && !Known(s, cmd)
      && (s.rows[cmd].kind == Malformed ==> !success)
    case SendSubmit => s.agents[cmd].Submitting?
    case Stop => true
  }

  function AgentNext(s: State, cmd: nat, e: AgentEvent): State
    requires cmd in s.agents && AgentEnabled(s, cmd, e)
  {
    match e
    case ReportFailed => s.(net := s.net + {UpdateFailed(cmd)}, agents := s.agents[cmd := Submitting(false)])
    case ReportSuccess => s.(net := s.net + {UpdateSuccess(cmd)}, agents := s.agents[cmd := AwaitingAck])
    case SuccessAnswered(ok) => s.(agents := s.agents[cmd := Submitting(ok)])
    case FinishOther(success) => s.(agents := s.agents[cmd := Submitting(success)])
    case SendSubmit => s.(net := s.net + {Submit(cmd, s.agents[cmd].success)})
    case Stop => s.(agents := s.agents - {cmd})
  }

  predicate HandlerEnabled(s: State, h: nat, e: HandlerEvent) {
    match e
    case PollRead(node, cmd) => h !in s.handlers && cmd in s.rows && s.rows[cmd].node == node
        && s.rows[cmd].status == Pending
    case PollUpdate(_, _) => h in s.handlers && s.handlers[h].Claiming?
    case SubmitRead(cmd, success, _, _) => h !in s.handlers && Submit(cmd, success) in s.net && cmd in s.rows
    case SubmitComplete => h in s.handlers && s.handlers[h].Completing?
    case MonitorRead(cmd) => h !in s.handlers && cmd in s.rows && Active(s.rows[cmd].status)
    case MonitorCheck(_, _) => h in s.handlers && s.handlers[h].Suspecting?
    case MonitorExpire => h in s.handlers && s.handlers[h].Expiring?
    case FailLinkedRecord => h in s.handlers && s.handlers[h].Failing?
    case Interrupted => h in s.handlers
  }

  /** What the handler writes to the database, and what a poll's answer tells an agent. */
  function Work(s: State, h: nat, e: HandlerEvent): State
    requires HandlerEnabled(s, h, e)
  {
    match e
    case PollUpdate(now, delivered) => Claimed(s, s.handlers[h].cmd, now, delivered)
    case SubmitComplete => s.(rows := CompletedRows(s.rows, s.handlers[h]))
    case MonitorExpire => s.(rows := Expire(s.rows, s.handlers[h].cmd, "agent did not report result before timeout"))
    case FailLinkedRecord => FailRecordOf(s, s.handlers[h].cmd)
    case _ => s
  }

  /** Where the handler goes from here; None when it is done. */
  function NextHandler(s: State, h: nat, e: HandlerEvent): Option<Handler>
    requires HandlerEnabled(s, h, e)
  {
    match e
    case PollRead(_, cmd) => Some(Claiming(cmd))
    case SubmitRead(cmd, success, errorMessage, result) =>
      if s.rows[cmd].status != Failed then
        Some(Completing(cmd, success, errorMessage, if result == "" then s.rows[cmd].result else result))
      else if success then None else Some(Failing(cmd))
    case SubmitComplete =>
      var cmd, success := s.handlers[h].cmd, s.handlers[h].success;
      if cmd in s.rows && s.rows[cmd].status == Dispatched && !success then Some(Failing(cmd)) else None
    case MonitorRead(cmd) => Some(Suspecting(cmd, s.rows[cmd].status))
    case MonitorCheck(nodeSeen, recordUpdated) =>
      if StillActive(s, s.handlers[h].cmd, s.handlers[h].seen, nodeSeen, recordUpdated) then None
      else Some(Expiring(s.handlers[h].cmd))
    case MonitorExpire =>
      var cmd := s.handlers[h].cmd;
      if cmd in s.rows && Active(s.rows[cmd].status) then Some(Failing(cmd)) else None
    case _ => None
  }

  /** The conditional claim of a poll; a lost response leaves the command dispatched to nobody. */
  function Claimed(s: State, cmd: nat, now: int, delivered: bool): State {
    if cmd in s.rows && s.rows[cmd].status == Pending then
      s.(rows := Claim(s.rows, cmd, now), handed := s.handed[cmd := Handed(s, cmd) + 1],
         agents := if delivered then s.agents[cmd := Executing] else s.agents)
    else s
  }

  function CompletedRows(rows: Rows, h: Handler): Rows
    requires h.Completing?
  {
    if h.cmd !in rows then rows
    else Complete(rows, h.cmd, rows[h.cmd].node, if h.success then Succeeded else Failed, h.errorMessage, h.result)
  }

  /** failLinkedRecord: a malformed payload is an error, and other commands have no record. */
  function FailRecordOf(s: State, cmd: nat): State {
    if cmd !in s.rows || s.rows[cmd].kind == Malformed then s
    else if s.rows[cmd].kind.Linked? then
      s.(records := Finish(s.records, s.rows[cmd].kind.record, RecordFailed), converged := s.converged + {cmd})
    else s.(converged := s.converged + {cmd})
  }

  /** Nothing the machine asks for keeps trouble away: restarts, deletions, agents and calls that just stop. */
  lemma TroubleIsAlwaysPossible(s: State, rec: RecordId, cmd: nat, h: nat, now: int)
    ensures Enabled(s, OnRecord(MasterRestart))
    ensures rec in s.records ==> Enabled(s, OnRecord(DeleteRecord(rec)))
    ensures rec in s.starting ==> Enabled(s, OnRecord(Abandon(rec)))
    ensures cmd in s.agents ==> Enabled(s, OnAgent(cmd, Stop))
    ensures h in s.handlers ==> Enabled(s, OnHandler(h, Interrupted))
    ensures h in s.handlers && s.handlers[h].Claiming? ==>
      var lost := OnHandler(h, PollUpdate(now, false)); Enabled(s, lost) && Next(s, lost).agents == s.agents
  {
  }

  // ------------------------------------------------------------ the invariant

  /** Records and commands: a record a command names was given to that command alone. */
  ghost predicate OwnershipOk(s: State) {
    && s.starting <= s.used && s.records.Keys <= s.used
    && (forall r :: r in s.starting && r in s.records ==> s.records[r] == RecordRunning)
    && (forall c :: Known(s, c) ==> s.rows[c].kind.record in s.used && s.rows[c].kind.record !in s.starting)
    && (forall c, d :: Known(s, c) && Known(s, d) && s.rows[c].kind.record == s.rows[d].kind.record ==> c == d)
  }

  /** Nothing refers to a command that was never enqueued or, while pending, that was handed out. */
  predicate Untouched(s: State, c: nat) {
    && c !in s.agents && Handed(s, c) == 0 && c !in s.acked && c !in s.converged
    && UpdateSuccess(c) !in s.net && UpdateFailed(c) !in s.net && Submit(c, true) !in s.net
        && Submit(c, false) !in s.net
  }

  /** What one agent has said so far about a command fits what it is doing. */
  predicate ReportsOk(s: State, c: nat) {
    && (UpdateFailed(c) in s.net ==> UpdateSuccess(c) !in s.net)
    && (c in s.acked ==> UpdateSuccess(c) in s.net)
    && (Submit(c, true) in s.net ==> Submit(c, false) !in s.net)
    && (Known(s, c) && Submit(c, true) in s.net ==> c in s.acked)
    && (c in s.agents ==>
          match s.agents[c]
          case Executing =>
            UpdateFailed(c) !in s.net && UpdateSuccess(c) !in s.net && Submit(c, true) !in s.net
                && Submit(c, false) !in s.net
          case AwaitingAck => UpdateFailed(c) !in s.net && Submit(c, true) !in s.net && Submit(c, false) !in s.net
          case Submitting(ok) => Submit(c, !ok) !in s.net && (ok && Known(s, c) ==> c in s.acked))
  }

  /** The coupling of a command and the record it names. */
  predicate RecordOk(s: State, c: nat) {
    Known(s, c) && s.rows[c].kind.record in s.records ==>
      var status, record := s.rows[c].status, s.records[s.rows[c].kind.record];
      && (c in s.acked ==> record != RecordRunning)
      && (Active(status) && record == RecordFailed ==> UpdateFailed(c) in s.net)
      && (status == Succeeded ==> record == RecordSuccess)
      && (c in s.converged ==> record != RecordRunning)
  }

  predicate CommandOk(s: State, c: nat) {
    && (c !in s.rows || s.rows[c].status == Pending ==> Untouched(s, c))
    && Handed(s, c) <= 1
    && (c in s.converged ==> c in s.rows && s.rows[c].status in {Failed, TimedOut})
    && ReportsOk(s, c) && RecordOk(s, c)
  }

  predicate HandlerOk(s: State, h: Handler) {
    match h
    case Claiming(c) => c in s.rows
    case Completing(c, success, _, _) => c in s.rows && Submit(c, success) in s.net
    case Suspecting(c, _) => c in s.rows
    case Expiring(c) => c in s.rows
    case Failing(c) => c in s.rows && s.rows[c].status in {Failed, TimedOut}
  }

  ghost predicate Invariant(s: State) {
    && OwnershipOk(s)
    && (forall c: nat :: CommandOk(s, c))
    && (forall h :: h in s.handlers ==> HandlerOk(s, s.handlers[h]))
  }

  // ------------------------------------------------------------ every step keeps it

  /** Neither new records nor new commands, and the records the master still holds are untouched. */
  ghost predicate KeepsOwners(s: State, t: State) {
    && t.used == s.used && t.starting <= s.starting && t.records.Keys <= s.records.Keys
    && (forall r :: r in t.starting && r in t.records ==> t.records[r] == s.records[r])
    && (forall c :: Known(t, c) ==> Known(s, c) && t.rows[c].kind == s.rows[c].kind)
  }

  lemma OwnersKept(s: State, t: State)
    requires OwnershipOk(s) && KeepsOwners(s, t)
    ensures OwnershipOk(t)
  {
  }

  lemma RecordStepKeepsOwners(s: State, e: RecordEvent)
    requires OwnershipOk(s) && RecordEnabled(s, e)
    ensures OwnershipOk(RecordNext(s, e))
  {
  }

  lemma HandlerStepKeepsOwners(s: State, h: nat, e: HandlerEvent)
    requires OwnershipOk(s) && HandlerEnabled(s, h, e)
    ensures KeepsOwners(s, Work(s, h, e))
  {
  }

  lemma RecordStepKeepsCommand(s: State, e: RecordEvent, c: nat)
    requires OwnershipOk(s) && RecordEnabled(s, e) && CommandOk(s, c)
    requires e.UpdateRecord? ==> CommandOk(s, e.m.cmd)
    ensures CommandOk(RecordNext(s, e), c)
  {
  }

  lemma AgentStepKeepsCommand(s: State, cmd: nat, e: AgentEvent, c: nat)
    requires cmd in s.agents && AgentEnabled(s, cmd, e) && CommandOk(s, c)
    ensures CommandOk(AgentNext(s, cmd, e), c)
  {
  }

  lemma FailingKeepsCommand(s: State, h: nat, c: nat)
    requires OwnershipOk(s) && HandlerEnabled(s, h, FailLinkedRecord) && CommandOk(s, c)
    requires HandlerOk(s, s.handlers[h])
    ensures CommandOk(Work(s, h, FailLinkedRecord), c)
  {
  }

  lemma HandlerStepKeepsCommand(s: State, h: nat, e: HandlerEvent, c: nat)
    requires OwnershipOk(s) && HandlerEnabled(s, h, e) && CommandOk(s, c)
    requires h in s.handlers ==> HandlerOk(s, s.handlers[h])
    ensures CommandOk(Work(s, h, e), c)
  {
    hide FailRecordOf, OwnershipOk;
    if e.FailLinkedRecord? { FailingKeepsCommand(s, h, c); }
  }

  lemma HandlerStepAdvances(s: State, h: nat, e: HandlerEvent)
    requires HandlerEnabled(s, h, e)
    ensures Advances(s.rows, Work(s, h, e).rows) && s.net == Work(s, h, e).net
  {
    hide Advances, Complete, Expire, Claim, Finish;
    UnchangedRowsAdvance(s.rows);
    match e
    case PollUpdate(now, _) => UpdatesAdvance(s.rows, s.handlers[h].cmd, 0, now, true, "", "");
    case SubmitComplete =>
      var cmd := s.handlers[h].cmd;
      if cmd in s.rows {
        UpdatesAdvance(s.rows, cmd, s.rows[cmd].node, 0, s.handlers[h].success, s.handlers[h].errorMessage,
            s.handlers[h].result);
      }
    case MonitorExpire =>
      UpdatesAdvance(s.rows, s.handlers[h].cmd, 0, 0, true, "agent did not report result before timeout", "");
    case _ =>
  }

  lemma HandlerKept(s: State, t: State, h: Handler)
    requires HandlerOk(s, h) && Advances(s.rows, t.rows) && s.net <= t.net
    ensures HandlerOk(t, h)
  {
  }

  lemma NextHandlerOk(s: State, h: nat, e: HandlerEvent)
    requires HandlerEnabled(s, h, e) && (h in s.handlers ==> HandlerOk(s, s.handlers[h]))
    requires NextHandler(s, h, e).Some?
    ensures HandlerOk(Work(s, h, e), NextHandler(s, h, e).value)
  {
  }

  lemma RecordStepAdvances(s: State, e: RecordEvent)
    requires RecordEnabled(s, e)
    ensures var t := RecordNext(s, e);
      && Advances(s.rows, t.rows) && t.net == s.net && (t.handlers == s.handlers || t.handlers == map[])
  {
    hide Restarted, Finish;
  }

  lemma AgentStepKeepsRest(s: State, cmd: nat, e: AgentEvent)
    requires cmd in s.agents && AgentEnabled(s, cmd, e)
    ensures var t := AgentNext(s, cmd, e);
      && t.rows == s.rows && Advances(s.rows, t.rows) && s.net <= t.net
      && t.records == s.records && t.handlers == s.handlers
      && t.starting == s.starting && t.used == s.used
  {
  }

  lemma StepKeepsOwnership(s: State, e: Event)
    requires Invariant(s) && Enabled(s, e)
    ensures OwnershipOk(Next(s, e))
  {
    hide CommandOk, HandlerOk, OwnershipOk, Advances, RecordEnabled, AgentEnabled, HandlerEnabled, RecordNext,
      AgentNext, Work, NextHandler;
    match e
    case OnRecord(r) => RecordStepKeepsOwners(s, r);
    case OnAgent(cmd, a) =>
      AgentStepKeepsRest(s, cmd, a);
      OwnersKept(s, Next(s, e));
    case OnHandler(h, m) =>
      HandlerStepKeepsOwners(s, h, m);
      OwnersKept(s, Next(s, e));
  }

  lemma StepKeepsCommand(s: State, e: Event, c: nat)
    requires Invariant(s) && Enabled(s, e)
    ensures CommandOk(Next(s, e), c)
  {
    hide HandlerOk, OwnershipOk, Advances, RecordEnabled, AgentEnabled, HandlerEnabled, RecordNext, AgentNext, Work,
      NextHandler;
    assert CommandOk(s, c);
    match e
    case OnRecord(r) =>
      assert r.UpdateRecord? ==> CommandOk(s, r.m.cmd);
      RecordStepKeepsCommand(s, r, c);
    case OnAgent(cmd, a) => AgentStepKeepsCommand(s, cmd, a, c);
    case OnHandler(h, m) => HandlerStepKeepsCommand(s, h, m, c);
  }

  lemma StepKeepsHandler(s: State, e: Event, h: nat)
    requires Invariant(s) && Enabled(s, e) && h in Next(s, e).handlers
    ensures HandlerOk(Next(s, e), Next(s, e).handlers[h])
  {
    hide CommandOk, OwnershipOk, Advances, RecordEnabled, AgentEnabled, HandlerEnabled, RecordNext, AgentNext, Work,
      NextHandler;
    match e
    case OnRecord(r) =>
      RecordStepAdvances(s, r);
      HandlerKept(s, Next(s, e), s.handlers[h]);
    case OnAgent(cmd, a) =>
      AgentStepKeepsRest(s, cmd, a);
      HandlerKept(s, Next(s, e), s.handlers[h]);
    case OnHandler(g, m) =>
      HandlerStepAdvances(s, g, m);
      if h == g { NextHandlerOk(s, g, m); } else { HandlerKept(s, Next(s, e), s.handlers[h]); }
  }

  lemma StepKeepsInvariant(s: State, e: Event)
    requires Invariant(s) && Enabled(s, e)
    ensures Invariant(Next(s, e))
    ensures Advances(s.rows, Next(s, e).rows)
  {
    StepKeepsOwnership(s, e);
    forall c: nat ensures CommandOk(Next(s, e), c) { StepKeepsCommand(s, e, c); }
    forall h | h in Next(s, e).handlers ensures HandlerOk(Next(s, e),
        Next(s, e).handlers[h]) { StepKeepsHandler(s, e, h); }
    hide CommandOk, HandlerOk, OwnershipOk, RecordEnabled, AgentEnabled, HandlerEnabled, RecordNext, AgentNext, Work,
      NextHandler;
    match e
    case OnRecord(r) => RecordStepAdvances(s, r);
    case OnAgent(cmd, a) => AgentStepKeepsRest(s, cmd, a);
    case OnHandler(h, m) => HandlerStepAdvances(s, h, m);
  }

  // ------------------------------------------------------------ whole runs

  ghost predicate IsRun(s: State, es: seq<Event>)
    decreases |es|
  {
    es == [] || (Enabled(s, es[0]) && IsRun(Next(s, es[0]), es[1..]))
  }

  ghost function RunTo(s: State, es: seq<Event>): State
    requires IsRun(s, es)
    decreases |es|
  {
    if es == [] then s else RunTo(Next(s, es[0]), es[1..])
  }

  lemma {:induction false} RunThenStep(s: State, es: seq<Event>, e: Event)
    requires IsRun(s, es) && Enabled(RunTo(s, es), e)
    ensures IsRun(s, es + [e]) && RunTo(s, es + [e]) == Next(RunTo(s, es), e)
    decreases |es|
  {
    hide Enabled, Next;
    if es == [] {
      assert [e][1..] == [];
      assert es + [e] == [e];
      assert IsRun(Next(s, e), []);
    } else {
      RunThenStep(Next(s, es[0]), es[1..], e);
      assert (es + [e])[1..] == es[1..] + [e];
    }
  }

  // ------------------------------------------------------------ what can still happen

  lemma Two(s: State, e: Event, f: Event) returns (es: seq<Event>)
    requires Enabled(s, e) && Enabled(Next(s, e), f)
    ensures IsRun(s, es) && RunTo(s, es) == Next(Next(s, e), f)
  {
    hide Enabled, Next;
    es := [e, f];
    assert es[1..] == [f] && [f][1..] == [];
    assert IsRun(Next(Next(s, e), f), []);
    assert IsRun(Next(s, e), [f]) && RunTo(Next(s, e), [f]) == Next(Next(s, e), f);
  }

  lemma {:induction false} OneAfterAnother(s: State, es: seq<Event>, fs: seq<Event>)
    requires IsRun(s, es) && IsRun(RunTo(s, es), fs)
    ensures IsRun(s, es + fs) && RunTo(s, es + fs) == RunTo(RunTo(s, es), fs)
    decreases |es|
  {
    hide Enabled, Next;
    if es == [] {
      assert es + fs == fs;
    } else {
      OneAfterAnother(Next(s, es[0]), es[1..], fs);
      assert (es + fs)[1..] == es[1..] + fs;
    }
  }

  /** The agent polls and gets the command. */
  lemma PickUp(s: State, cmd: nat, h: nat, now: int) returns (es: seq<Event>)
    requires cmd in s.rows && s.rows[cmd].status == Pending && h !in s.handlers
    ensures IsRun(s, es)
    ensures RunTo(s, es) == s.(rows := s.rows[cmd := s.rows[cmd].(status := Dispatched, dispatchedAt := now)],
                               agents := s.agents[cmd := Executing], handed := s.handed[cmd := Handed(s, cmd) + 1])
  {
    var e, f := OnHandler(h, PollRead(s.rows[cmd].node, cmd)), OnHandler(h, PollUpdate(now, true));
    var t := Next(s, e);
    assert t == s.(handlers := s.handlers[h := Claiming(cmd)]);
    assert t.handlers - {h} == s.handlers;
    es := Two(s, e, f);
  }

  /** The agent reports to its record and hears back. */
  lemma ReportSucceeds(s: State, cmd: nat) returns (es: seq<Event>)
    requires cmd in s.agents && s.agents[cmd] == Executing
    requires Known(s, cmd) && s.rows[cmd].kind.record in s.records
    ensures IsRun(s, es)
    ensures RunTo(s, es) == s.(records := Finish(s.records, s.rows[cmd].kind.record, RecordSuccess),
                               agents := s.agents[cmd := Submitting(true)], net := s.net + {UpdateSuccess(cmd)},
                               acked := s.acked + {cmd})
  {
    var e, f, g := OnAgent(cmd, ReportSuccess), OnRecord(UpdateRecord(UpdateSuccess(cmd))),
        OnAgent(cmd, SuccessAnswered(true));
    var t := Next(s, e);
    assert t == s.(net := s.net + {UpdateSuccess(cmd)}, agents := s.agents[cmd := AwaitingAck]);
    es := Two(s, e, f);
    assert t.agents[cmd := Submitting(true)] == s.agents[cmd := Submitting(true)];
    RunThenStep(s, es, g);
    es := es + [g];
  }

  lemma ReportFails(s: State, cmd: nat) returns (es: seq<Event>)
    requires cmd in s.agents && s.agents[cmd] == Executing
    requires Known(s, cmd) && s.rows[cmd].kind.record in s.records
    ensures IsRun(s, es)
    ensures RunTo(s, es) == s.(records := Finish(s.records, s.rows[cmd].kind.record, RecordFailed),
                               agents := s.agents[cmd := Submitting(false)], net := s.net + {UpdateFailed(cmd)})
  {
    es := Two(s, OnAgent(cmd, ReportFailed), OnRecord(UpdateRecord(UpdateFailed(cmd))));
  }

  /** The agent submits its result, and the master stores it. */
  lemma SubmitArrives(s: State, cmd: nat, success: bool, h: nat, errorMessage: string, result: string)
    returns (es: seq<Event>)
    requires cmd in s.agents && s.agents[cmd] == Submitting(success) && h !in s.handlers
    requires cmd in s.rows && s.rows[cmd].status == Dispatched
    ensures IsRun(s, es)
    ensures var was := s.rows[cmd];
      && RunTo(s, es).rows == s.rows[cmd := Command(was.node, was.kind, if success then Succeeded else Failed,
                                                    if result == "" then was.result else result, errorMessage,
                                                    was.createdAt, was.dispatchedAt)]
      && RunTo(s, es).records == s.records
  {
    var e, f, g := OnAgent(cmd, SendSubmit), OnHandler(h, SubmitRead(cmd, success, errorMessage, result)),
        OnHandler(h, SubmitComplete);
    var t := Next(s, e);
    assert t == s.(net := s.net + {Submit(cmd, success)});
    es := Two(s, e, f);
    var u := Next(t, f);
    assert h in u.handlers && u.handlers[h].Completing? && u.rows == s.rows && u.records == s.records;
    RunThenStep(s, es, g);
    es := es + [g];
  }

  /**
   * No matter what has happened, a command still pending for a running record can be carried
   * out: it ends succeeded or failed, as the agent says, and its record likewise.
   */
  lemma PendingCanFinish(s: State, cmd: nat, success: bool, h: nat, now: int, errorMessage: string, result: string)
    returns (es: seq<Event>)
    requires Known(s, cmd) && s.rows[cmd].status == Pending && h !in s.handlers
    requires s.rows[cmd].kind.record in s.records && s.records[s.rows[cmd].kind.record] == RecordRunning
    ensures IsRun(s, es)
    ensures var was := s.rows[cmd];
      && RunTo(s, es).rows == s.rows[cmd := Command(was.node, was.kind, if success then Succeeded else Failed,
                                                    if result == "" then was.result else result, errorMessage,
                                                    was.createdAt, now)]
      && RunTo(s, es).records == s.records[was.kind.record := if success then RecordSuccess else RecordFailed]
  {
    hide IsRun, RunTo;
    es := PickUp(s, cmd, h, now);
    var t := RunTo(s, es);
    var fs;
    if success { fs := ReportSucceeds(t, cmd); } else { fs := ReportFails(t, cmd); }
    OneAfterAnother(s, es, fs);
    es := es + fs;
    var gs := SubmitArrives(RunTo(s, es), cmd, success, h, errorMessage, result);
    OneAfterAnother(s, es, gs);
    es := es + gs;
  }

  /** Neither the node was seen nor the record updated. */
  lemma LosesLease(s: State, cmd: nat, h: nat) returns (es: seq<Event>)
    requires cmd in s.rows && Active(s.rows[cmd].status) && h !in s.handlers
    ensures IsRun(s, es) && RunTo(s, es) == s.(handlers := s.handlers[h := Expiring(cmd)])
  {
    var e, f := OnHandler(h, MonitorRead(cmd)), OnHandler(h, MonitorCheck(false, false));
    var t := Next(s, e);
    assert t == s.(handlers := s.handlers[h := Suspecting(cmd, s.rows[cmd].status)]);
    es := Two(s, e, f);
    assert t.handlers[h := Expiring(cmd)] == s.handlers[h := Expiring(cmd)];
  }

  lemma LeaseRunsOut(s: State, cmd: nat, h: nat) returns (es: seq<Event>)
    requires Known(s, cmd) && Active(s.rows[cmd].status) && h in s.handlers && s.handlers[h] == Expiring(cmd)
    ensures IsRun(s, es)
    ensures RunTo(s, es).rows == Expire(s.rows, cmd, "agent did not report result before timeout")
    ensures RunTo(s, es).records == Finish(s.records, s.rows[cmd].kind.record, RecordFailed)
  {
    es := Two(s, OnHandler(h, MonitorExpire), OnHandler(h, FailLinkedRecord));
  }

  /** A command that stays without report can be timed out, and its record then fails. */
  lemma SilentCanTimeOut(s: State, cmd: nat, h: nat) returns (es: seq<Event>)
    requires Known(s, cmd) && Active(s.rows[cmd].status) && h !in s.handlers
    requires s.rows[cmd].kind.record in s.records && s.records[s.rows[cmd].kind.record] == RecordRunning
    ensures IsRun(s, es)
    ensures var was := s.rows[cmd];
      && RunTo(s, es).rows == s.rows[cmd := Command(was.node, was.kind, TimedOut, was.result,
                                                    "agent did not report result before timeout", was.createdAt,
                                                    was.dispatchedAt)]
      && RunTo(s, es).records == s.records[was.kind.record := RecordFailed]
  {
    hide IsRun, RunTo;
    es := LosesLease(s, cmd, h);
    var fs := LeaseRunsOut(RunTo(s, es), cmd, h);
    OneAfterAnother(s, es, fs);
    es := es + fs;
  }

  lemma {:induction false} RunsKeepInvariant(s: State, es: seq<Event>)
    requires Invariant(s) && IsRun(s, es)
    ensures Invariant(RunTo(s, es))
    decreases |es|
  {
    hide Invariant, Enabled, Next;
    if es != [] {
      StepKeepsInvariant(s, es[0]);
      RunsKeepInvariant(Next(s, es[0]), es[1..]);
    }
  }

  /**
   * What holds of a command whenever the machine is observed: a succeeded command
   * has a successful record, once failLinkedRecord has run for a failed or timed-out
   * one its record is final, and no command is ever handed out twice.
   */
  predicate Coupled(s: State, c: nat) {
    && (Known(s, c) && s.rows[c].kind.record in s.records ==>
          && (s.rows[c].status == Succeeded ==> s.records[s.rows[c].kind.record] == RecordSuccess)
          && (c in s.converged ==> s.records[s.rows[c].kind.record] != RecordRunning))
    && (c in s.converged ==> c in s.rows && s.rows[c].status in {Failed, TimedOut})
    && Handed(s, c) <= 1
    && (c in s.rows && s.rows[c].status == Pending ==> Handed(s, c) == 0)
  }

  lemma CommandIsCoupled(s: State, c: nat)
    requires CommandOk(s, c)
    ensures Coupled(s, c)
  {
  }

  lemma InitialInvariant()
    ensures Invariant(INITIAL)
  {
  }

  lemma RunsStayCoupled(es: seq<Event>, c: nat)
    requires IsRun(INITIAL, es)
    ensures Coupled(RunTo(INITIAL, es), c)
  {
    hide IsRun, RunTo, HandlerOk, OwnershipOk, Coupled, CommandOk;
    InitialInvariant();
    RunsKeepInvariant(INITIAL, es);
    CommandIsCoupled(RunTo(INITIAL, es), c);
  }

  /** Across a whole run: rows stay, a finished row is final, and nothing becomes pending again. */
  ghost predicate Progressed(before: Rows, after: Rows) {
    forall id :: id in before ==>
      && id in after
      && after[id].node == before[id].node && after[id].kind == before[id].kind
      && (Terminal(before[id].status) ==> after[id] == before[id])
      && (after[id].status == Pending ==> before[id].status == Pending)
  }

  lemma {:induction false} RunsProgress(s: State, es: seq<Event>)
    requires Invariant(s) && IsRun(s, es)
    ensures Progressed(s.rows, RunTo(s, es).rows)
    decreases |es|
  {
    hide Invariant, Enabled, Next;
    if es != [] {
      StepKeepsInvariant(s, es[0]);
      RunsProgress(Next(s, es[0]), es[1..]);
    }
  }

  /** A record that is gone for good or has this final status. */
  predicate Settled(s: State, rec: RecordId, status: RecordStatus) {
    rec in s.used && (rec in s.records ==> s.records[rec] == status)
  }

  lemma RecordStepKeepsSettled(s: State, e: RecordEvent, rec: RecordId, status: RecordStatus)
    requires OwnershipOk(s) && RecordEnabled(s, e) && Settled(s, rec, status) && status != RecordRunning
    ensures Settled(RecordNext(s, e), rec, status)
  {
    hide Named;
  }

  lemma HandlerStepKeepsSettled(s: State, h: nat, e: HandlerEvent, rec: RecordId, status: RecordStatus)
    requires HandlerEnabled(s, h, e) && Settled(s, rec, status) && status != RecordRunning
    ensures Settled(Work(s, h, e), rec, status)
  {
  }

  lemma StepKeepsSettled(s: State, e: Event, rec: RecordId, status: RecordStatus)
    requires OwnershipOk(s) && Enabled(s, e) && Settled(s, rec, status) && status != RecordRunning
    ensures Settled(Next(s, e), rec, status)
  {
    hide OwnershipOk, Advances, RecordEnabled, AgentEnabled, HandlerEnabled, RecordNext, AgentNext, Work, NextHandler;
    match e
    case OnRecord(r) => RecordStepKeepsSettled(s, r, rec, status);
    case OnAgent(cmd, a) => AgentStepKeepsRest(s, cmd, a);
    case OnHandler(h, m) => HandlerStepKeepsSettled(s, h, m, rec, status);
  }

  lemma InvariantOwns(s: State)
    requires Invariant(s)
    ensures OwnershipOk(s)
  {
  }

  /** A finished record is never changed again: success is not downgraded, failure not revived. */
  lemma {:induction false} FinishedRecordsStay(s: State, es: seq<Event>, rec: RecordId, status: RecordStatus)
    requires Invariant(s) && IsRun(s, es) && Settled(s, rec, status) && status != RecordRunning
    ensures Settled(RunTo(s, es), rec, status)
    decreases |es|
  {
    hide Invariant, Enabled, Next, Settled;
    if es != [] {
      InvariantOwns(s);
      StepKeepsInvariant(s, es[0]);
      StepKeepsSettled(s, es[0], rec, status);
      FinishedRecordsStay(Next(s, es[0]), es[1..], rec, status);
    }
  }

  // ------------------------------------------------------------ convergence

  /** Repeating a failure report of an already failed command is enough to finish a record still running. */
  lemma RetryConverges(s: State, cmd: nat, h: nat, errorMessage: string, result: string)
    requires Invariant(s) && Known(s, cmd) && s.rows[cmd].status == Failed && Submit(cmd, false) in s.net
        && h !in s.handlers
    ensures var es := [OnHandler(h, SubmitRead(cmd, false, errorMessage, result)), OnHandler(h, FailLinkedRecord)];
      && IsRun(s, es) && cmd in RunTo(s, es).converged && RunTo(s, es).rows == s.rows
      && (s.rows[cmd].kind.record in RunTo(s, es).records
          ==> RunTo(s, es).records[s.rows[cmd].kind.record] != RecordRunning)
  {
    var e, f := OnHandler(h, SubmitRead(cmd, false, errorMessage, result)), OnHandler(h, FailLinkedRecord);
    var es := [e, f];
    var t := Next(s, e);
    assert t == s.(handlers := s.handlers[h := Failing(cmd)]);
    assert Enabled(t, f);
    var u := Next(t, f);
    assert es[1..] == [f] && es[1..][1..] == [];
    assert IsRun(u, []) && IsRun(t, [f]) && IsRun(s, es);
    assert RunTo(u, []) == u && RunTo(t, [f]) == u && RunTo(s, es) == u;
  }
}
