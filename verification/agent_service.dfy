/** The master's agent service: each call, run without interference, is a run of the protocol machine. */
module AgentServices {
  import opened ByteStrings
  import opened Commands
  import opened AgentProtocol

  datatype ServiceError = CommandNotFound | CommandForbidden | RecordNotFound | MalformedPayload

  // ------------------------------------------------------------ a pass of the timeout monitor

  const TIMEOUT_MESSAGE := "agent did not report result before timeout"

  /** The record a command names has not changed. */
  predicate SameRecord(s: State, t: State, c: nat) {
    Known(s, c) ==> SameAt(s.records, t.records, s.rows[c].kind.record)
  }

  predicate SameAt(before: Records, after: Records, rec: RecordId) {
    (rec in before <==> rec in after) && (rec in before ==> after[rec] == before[rec])
  }

  lemma OtherRecordsSame(s: State, t: State, cmd: nat)
    requires Invariant(s)
    requires t.records == s.records
        || (Known(s, cmd) && t.records == Finish(s.records, s.rows[cmd].kind.record, RecordFailed))
    ensures forall c: nat :: c != cmd ==> SameRecord(s, t, c)
  {
    hide CommandOk, HandlerOk;
  }

  /** What node and record say about a command's lease; the clock's part of the answer. */
  datatype Lease = Lease(nodeSeen: nat -> bool, recordUpdated: nat -> bool)

  predicate Doomed(s: State, c: nat, threshold: int, lease: Lease) {
    && c in s.rows && Stale(s.rows[c], threshold)
    && !StillActive(s, c, s.rows[c].status, lease.nodeSeen(c), lease.recordUpdated(c))
  }

  /** A command whose lease has run out is timed out and its record failed; any other is untouched. */
  predicate Swept(s: State, t: State, c: nat, threshold: int, lease: Lease)
    requires c in s.rows
  {
    && c in t.rows
    && (Doomed(s, c, threshold, lease) ==>
          && t.rows[c] == Expire(s.rows, c, TIMEOUT_MESSAGE)[c] && (s.rows[c].kind == Malformed || c in t.converged)
          && (Known(s, c) ==>
                SameAt(Finish(s.records, s.rows[c].kind.record, RecordFailed), t.records, s.rows[c].kind.record)))
    && (!Doomed(s, c, threshold, lease) ==> t.rows[c] == s.rows[c] && SameRecord(s, t, c))
  }

  /**
   The same on the tables: a command pending or dispatched since before the threshold times out
   and its running record fails, unless it is dispatched, its record runs, and the node was
   seen or the record was updated; any other row and its running record stay as they are.
   */
  predicate TimedOutUnlessLeased(rows: Rows, records: Records, rows': Rows, records': Records, c: nat, threshold: int,
                                 lease: Lease)
    requires c in rows
  {
    var was := rows[c];
    var stale := (was.status == Pending && was.createdAt < threshold)
      || (was.status == Dispatched && was.dispatchedAt < threshold);
    var running := was.kind.Linked? && was.kind.record in records && records[was.kind.record] == RecordRunning;
    var leased := was.status == Dispatched && running && (lease.nodeSeen(c) || lease.recordUpdated(c));
    var expired := stale && !leased;
    && c in rows'
    && rows'[c] == (if expired
      then Command(was.node, was.kind, TimedOut, was.result, "agent did not report result before timeout",
                   was.createdAt, was.dispatchedAt)
      else was)
    && (running ==>
          was.kind.record in records' && records'[was.kind.record] == if expired then RecordFailed else RecordRunning)
  }

  lemma SweptOnTables(s: State, t: State, c: nat, threshold: int, lease: Lease)
    requires c in s.rows && Swept(s, t, c, threshold, lease)
    ensures TimedOutUnlessLeased(s.rows, s.records, t.rows, t.records, c, threshold, lease)
  {
  }

  /** Only records of commands that were timed out change. */
  ghost predicate OthersKept(s: State, t: State, threshold: int, lease: Lease) {
    forall r: RecordId :: SameAt(s.records, t.records, r)
        || exists c :: Doomed(s, c, threshold, lease) && s.rows[c].kind == Linked(r)
  }

  /** The effect of treating one command. */
  predicate Treated(s: State, t: State, cmd: nat, lease: Lease)
    requires cmd in s.rows
  {
    if StillActive(s, cmd, s.rows[cmd].status, lease.nodeSeen(cmd), lease.recordUpdated(cmd)) then
      t.rows == s.rows && t.records == s.records && t.converged == s.converged
    else
      && t.rows == Expire(s.rows, cmd, TIMEOUT_MESSAGE)
      && t.records == (if s.rows[cmd].kind.Linked? then Finish(s.records, s.rows[cmd].kind.record, RecordFailed)
          else s.records)
      && t.converged == s.converged + (if s.rows[cmd].kind == Malformed then {} else {cmd})
  }

  /** Half-way through a pass: these commands are still as they were, all others are done. */
  ghost predicate Sweeping(s: State, t: State, ids: set<nat>, threshold: int, lease: Lease) {
    && t.rows.Keys == s.rows.Keys
    && (forall c :: c in ids ==>
      c in s.rows && Stale(s.rows[c], threshold) && t.rows[c] == s.rows[c] && SameRecord(s, t, c))
    && (forall c :: c in s.rows && c !in ids ==> Swept(s, t, c, threshold, lease))
    && OthersKept(s, t, threshold, lease)
  }

  lemma NothingSwept(s: State, ids: set<nat>, threshold: int, lease: Lease)
    requires forall c :: c in ids <==> c in s.rows && Stale(s.rows[c], threshold)
    ensures Sweeping(s, s, ids, threshold, lease)
  {
    hide StillActive;
  }

  /** A command already done stays as it is while another one is treated. */
  lemma SweptStays(s: State, t: State, u: State, c: nat, cmd: nat, threshold: int, lease: Lease)
    requires c in s.rows && cmd in t.rows && c != cmd && Swept(s, t, c, threshold, lease)
    requires Treated(t, u, cmd, lease) && SameRecord(t, u, c)
    ensures Swept(s, u, c, threshold, lease)
  {
    hide Stale, StillActive, Doomed;
  }

  /** The command just treated is done. */
  lemma SweptNow(s: State, t: State, u: State, cmd: nat, threshold: int, lease: Lease)
    requires cmd in s.rows && cmd in t.rows && t.rows[cmd] == s.rows[cmd] && Stale(s.rows[cmd], threshold)
    requires SameRecord(s, t, cmd) && Treated(t, u, cmd, lease)
    ensures Swept(s, u, cmd, threshold, lease)
  {
  }

  lemma KeptStays(s: State, t: State, u: State, cmd: nat, threshold: int, lease: Lease)
    requires OthersKept(s, t, threshold, lease)
    requires cmd in s.rows && cmd in t.rows && t.rows[cmd] == s.rows[cmd] && Stale(s.rows[cmd], threshold)
    requires SameRecord(s, t, cmd) && Treated(t, u, cmd, lease)
    ensures OthersKept(s, u, threshold, lease)
  {
    forall r: RecordId | !SameAt(s.records, u.records, r)
      ensures exists c :: Doomed(s, c, threshold, lease) && s.rows[c].kind == Linked(r)
    {
      if SameAt(s.records, t.records, r) {
        assert Doomed(s, cmd, threshold, lease) && s.rows[cmd].kind == Linked(r);
      }
    }
  }

  lemma SweepOne(s: State, t: State, u: State, ids: set<nat>, cmd: nat, threshold: int, lease: Lease)
    requires Sweeping(s, t, ids, threshold, lease) && cmd in ids && Invariant(t) && Treated(t, u, cmd, lease)
    ensures Sweeping(s, u, ids - {cmd}, threshold, lease)
  {
    hide CommandOk, HandlerOk, OwnershipOk, Stale, Invariant, Doomed, Swept, OthersKept, StillActive, Finish;
    OtherRecordsSame(t, u, cmd);
    KeptStays(s, t, u, cmd, threshold, lease);
    forall c | c in ids - {cmd} ensures u.rows[c] == s.rows[c] && SameRecord(s, u, c) {
      assert SameRecord(s, t, c) && SameRecord(t, u, c);
    }
    forall c | c in s.rows && c !in ids - {cmd} ensures Swept(s, u, c, threshold, lease) {
      if c == cmd {
        SweptNow(s, t, u, cmd, threshold, lease);
      } else {
        SweptStays(s, t, u, c, cmd, threshold, lease);
      }
    }
  }

  /** A command still pending has been handed to nobody. */
  lemma HandedOnce(es: seq<Event>, c: nat)
    requires IsRun(INITIAL, es) && c in RunTo(INITIAL, es).rows && RunTo(INITIAL, es).rows[c].status == Pending
    ensures Handed(RunTo(INITIAL, es), c) == 0
  {
    hide IsRun, RunTo;
    RunsStayCoupled(es, c);
  }

  /** Every stored record was given out by the machine. */
  lemma CreatedIsNew(es: seq<Event>, rec: RecordId)
    requires IsRun(INITIAL, es) && rec !in RunTo(INITIAL, es).used
    ensures rec !in RunTo(INITIAL, es).records
  {
    hide IsRun, RunTo, CommandOk, HandlerOk;
    InitialInvariant();
    RunsKeepInvariant(INITIAL, es);
  }

  class AgentService {
    const cmdRepo: AgentCommandRepository
    var records: Records
    var nextRecord: nat
    ghost var events: seq<Event>

    /** The machine state reached so far. */
    ghost function Machine(): State
      reads this
      requires IsRun(INITIAL, events)
    {
      RunTo(INITIAL, events)
    }

    ghost predicate Valid()
      reads this, cmdRepo
    {
      && IsRun(INITIAL, events) && cmdRepo.rows == Machine().rows && records == Machine().records
      && cmdRepo.Numbered() && forall r :: r in Machine().used ==> r.id < nextRecord
    }

    constructor ()
      ensures Idle() && events == [] && fresh(cmdRepo)
    {
      cmdRepo := new AgentCommandRepository();
      records, nextRecord, events := map[], 1, [];
    }

    ghost method Take(e: Event)
      requires IsRun(INITIAL, events) && Enabled(Machine(), e)
      modifies `events
      ensures IsRun(INITIAL, events) && events == old(events) + [e] && Machine() == Next(old(Machine()), e)
    {
      RunThenStep(INITIAL, events, e);
      events := events + [e];
    }

    /** No call of this service is under way. */
    ghost predicate Idle()
      reads this, cmdRepo
    {
      Valid() && 0 !in Machine().handlers
    }

    /** Starts a backup or a restore: a running record the master holds until it hands it on. */
    method CreateRecord(restore: bool) returns (rec: RecordId)
      requires Idle()
      modifies this
      ensures Idle() && rec !in old(records) && records == old(records)[rec := RecordRunning]
      ensures rec.RestoreRecord? == restore && Machine().starting == old(Machine()).starting + {rec}
    {
      rec := if restore then RestoreRecord(nextRecord) else BackupRecord(nextRecord);
      nextRecord := nextRecord + 1;
      records := records[rec := RecordRunning];
      CreatedIsNew(events, rec);
      Take(OnRecord(AgentProtocol.CreateRecord(rec)));
    }

    /** Queues a command for a node; a linked one takes its record out of the master's hands. */
    method EnqueueCommand(node: nat, kind: Kind, now: int) returns (id: Option<nat>)
      requires Idle() && (kind.Linked? ==> kind.record in Machine().starting)
      modifies this, cmdRepo
      ensures Idle() && records == old(records)
      ensures id.None? <==> node == 0
      ensures id.None? ==> events == old(events)
      ensures id.Some? ==>
        && id.value !in old(cmdRepo.rows)
        && cmdRepo.rows == old(cmdRepo.rows)[id.value := Command(node, kind, Pending, "", "", now, now)]
      ensures id.Some? && kind.Linked? ==> Machine().starting == old(Machine()).starting - {kind.record}
    {
      if node == 0 { return None; }
      var cmd := cmdRepo.Create(Command(node, kind, Pending, "", "", now, now));
      match kind {
        case Linked(rec) => Take(OnRecord(EnqueueLinked(cmd, node, rec, now)));
        case _ => Take(OnRecord(EnqueueOther(cmd, node, kind, now)));
      }
      id := Some(cmd);
    }

    /** Hands a node its oldest pending command, once. */
    method PollCommand(node: nat, now: int) returns (claimed: Option<nat>)
      requires Idle()
      modifies this, cmdRepo
      ensures Idle() && records == old(records)
      ensures claimed.Some? ==> Handed(old(Machine()), claimed.value) == 0 && Handed(Machine(), claimed.value) == 1
      ensures claimed.Some? ==>
        && claimed.value in old(cmdRepo.rows) && old(cmdRepo.rows)[claimed.value].node == node
        && (forall c ::
              c in old(cmdRepo.rows) && old(cmdRepo.rows)[c].node == node && old(cmdRepo.rows)[c].status == Pending ==>
                claimed.value <= c)
        && cmdRepo.rows == Claim(old(cmdRepo.rows), claimed.value, now)
        && Machine().agents == old(Machine()).agents[claimed.value := Executing]
      ensures claimed.None? ==> events == old(events)
      ensures claimed.None? ==>
        forall c :: c in cmdRepo.rows && cmdRepo.rows[c].node == node ==> cmdRepo.rows[c].status != Pending
    {
      claimed := cmdRepo.ClaimPending(node, now);
      if claimed.Some? {
        HandedOnce(events, claimed.value);
        Take(OnHandler(0, PollRead(node, claimed.value)));
        Take(OnHandler(0, PollUpdate(now, true)));
      }
    }

    /** Stores what an agent reports about its record; a finished record is left as it is. */
    method UpdateRecord(rec: RecordId, success: bool, ghost m: Message) returns (error: Option<ServiceError>)
      requires Idle() && m in Machine().net && m == (if success then UpdateSuccess(m.cmd) else UpdateFailed(m.cmd))
      requires m.cmd in cmdRepo.rows && cmdRepo.rows[m.cmd].kind == Linked(rec)
      modifies this
      ensures Idle()
      ensures rec !in old(records) ==> error == Some(RecordNotFound) && events == old(events)
      ensures rec in old(records) ==> error.None?
      ensures records == Finish(old(records), rec, if success then RecordSuccess else RecordFailed)
      ensures rec in old(records) && success ==> m.cmd in Machine().acked
    {
      if rec !in records { return Some(RecordNotFound); }
      error := None;
      if records[rec] == RecordRunning {
        records := records[rec := if success then RecordSuccess else RecordFailed];
      }
      Take(OnRecord(AgentProtocol.UpdateRecord(m)));
    }

    /** Marks the record a command names failed, if it is still running. */
    method FailLinkedRecord(cmd: nat) returns (error: Option<ServiceError>)
      requires Valid() && 0 in Machine().handlers && Machine().handlers[0] == Failing(cmd) && cmd in cmdRepo.rows
      modifies this, cmdRepo
      ensures Idle() && cmdRepo.rows == old(cmdRepo.rows)
      ensures Machine() == Next(old(Machine()), OnHandler(0, AgentProtocol.FailLinkedRecord))
      ensures cmdRepo.rows[cmd].kind.Linked?
          ==> records == Finish(old(records), cmdRepo.rows[cmd].kind.record, RecordFailed)
      ensures !cmdRepo.rows[cmd].kind.Linked? ==> records == old(records)
      ensures error == if cmdRepo.rows[cmd].kind == Malformed then Some(MalformedPayload) else None
    {
      error := None;
      match cmdRepo.rows[cmd].kind {
        case Malformed => error := Some(MalformedPayload);
        case Linked(rec) =>
          if rec in records && records[rec] == RecordRunning {
            records := records[rec := RecordFailed];
          }
        case _ =>
      }
      Take(OnHandler(0, AgentProtocol.FailLinkedRecord));
    }

    /** Takes an agent's report of a command, or repeats the last step of an earlier failure report. */
    method SubmitCommandResult(node: nat, cmd: nat, success: bool, errorMessage: string, result: string)
      returns (error: Option<ServiceError>)
      requires Idle() && (cmd in cmdRepo.rows && cmdRepo.rows[cmd].node == node
          ==> Submit(cmd, success) in Machine().net)
      modifies this, cmdRepo
      ensures Idle()
      ensures cmd !in old(cmdRepo.rows) ==> error == Some(CommandNotFound) && events == old(events)
      ensures cmd in old(cmdRepo.rows) && old(cmdRepo.rows)[cmd].node != node ==>
        error == Some(CommandForbidden) && events == old(events)
      ensures cmd in old(cmdRepo.rows) && old(cmdRepo.rows)[cmd].node == node ==>
        cmdRepo.rows == Complete(old(cmdRepo.rows), cmd, node, if success then Succeeded else Failed, errorMessage,
                                 if result == "" then old(cmdRepo.rows)[cmd].result else result)
      ensures records == if cmd in old(cmdRepo.rows) && old(cmdRepo.rows)[cmd].node == node && !success
          && old(cmdRepo.rows)[cmd].status in {Dispatched, Failed} && old(cmdRepo.rows)[cmd].kind.Linked?
        then Finish(old(records), old(cmdRepo.rows)[cmd].kind.record, RecordFailed) else old(records)
      ensures error.None? && !success && cmd in cmdRepo.rows && cmdRepo.rows[cmd].status == Failed
          ==> cmd in Machine().converged
      ensures CanComplete(old(cmdRepo.rows), cmd, node) ==>
        var was := old(cmdRepo.rows)[cmd];
        cmdRepo.rows == old(cmdRepo.rows)[cmd :=
          Command(node, was.kind, if success then Succeeded else Failed, if result == "" then was.result else result,
                  errorMessage, was.createdAt, was.dispatchedAt)]
      ensures cmd in old(cmdRepo.rows) && old(cmdRepo.rows)[cmd].status != Dispatched ==>
        cmdRepo.rows == old(cmdRepo.rows)
    {
      if cmd !in cmdRepo.rows { return Some(CommandNotFound); }
      if cmdRepo.rows[cmd].node != node { return Some(CommandForbidden); }
      var read := cmdRepo.rows[cmd];
      Take(OnHandler(0, SubmitRead(cmd, success, errorMessage, result)));
      if read.status == Failed && success {
        return None;
      }
      if read.status == Failed {
        error := FailLinkedRecord(cmd);
        return;
      }
      var completed := cmdRepo.CompleteDispatched(cmd, node, if success then Succeeded else Failed, errorMessage,
                                                  if result == "" then read.result else result);
      Take(OnHandler(0, SubmitComplete));
      if !completed || success {
        return None;
      }
      error := FailLinkedRecord(cmd);
    }

    /** Whether a stale command keeps its lease. */
    method CommandStillActive(cmd: nat, nodeSeen: bool, recordUpdated: bool) returns (active: bool)
      requires Valid() && cmd in cmdRepo.rows
      ensures active == StillActive(Machine(), cmd, cmdRepo.rows[cmd].status, nodeSeen, recordUpdated)
      ensures var read := cmdRepo.rows[cmd];
        active == (read.status == Dispatched && read.kind.Linked? && read.kind.record in records
                   && records[read.kind.record] == RecordRunning && (nodeSeen || recordUpdated))
    {
      if cmdRepo.rows[cmd].status != Dispatched { return false; }
      match cmdRepo.rows[cmd].kind
      case Linked(rec) =>
        if rec !in records || records[rec] != RecordRunning { return false; }
        return nodeSeen || recordUpdated;
      case _ => return false;
    }

    /** The monitor's check of a stale command. */
    method CheckLease(cmd: nat, nodeSeen: bool, recordUpdated: bool) returns (stillActive: bool)
      requires Idle() && cmd in cmdRepo.rows && Active(cmdRepo.rows[cmd].status)
      modifies `events
      ensures Valid()
      ensures stillActive == StillActive(old(Machine()), cmd, cmdRepo.rows[cmd].status, nodeSeen, recordUpdated)
      ensures Machine() == old(Machine()).(handlers := Machine().handlers)
      ensures if stillActive then 0 !in Machine().handlers
              else 0 in Machine().handlers && Machine().handlers[0] == Expiring(cmd)
    {
      Take(OnHandler(0, MonitorRead(cmd)));
      stillActive := CommandStillActive(cmd, nodeSeen, recordUpdated);
      Take(OnHandler(0, MonitorCheck(nodeSeen, recordUpdated)));
    }

    /** Times out a command whose lease has run out and fails its record. */
    method ExpireCommand(cmd: nat)
      requires Valid() && cmd in cmdRepo.rows && Active(cmdRepo.rows[cmd].status)
      requires 0 in Machine().handlers && Machine().handlers[0] == Expiring(cmd)
      modifies this, cmdRepo
      ensures Idle() && cmdRepo.rows == Expire(old(cmdRepo.rows), cmd, TIMEOUT_MESSAGE)
      ensures cmdRepo.rows[cmd].kind.Linked?
          ==> records == Finish(old(records), cmdRepo.rows[cmd].kind.record, RecordFailed)
      ensures !cmdRepo.rows[cmd].kind.Linked? ==> records == old(records)
      ensures Machine().converged == old(Machine()).converged
          + (if cmdRepo.rows[cmd].kind == Malformed then {} else {cmd})
    {
      var _ := cmdRepo.TimeoutActive(cmd, TIMEOUT_MESSAGE);
      Take(OnHandler(0, MonitorExpire));
      var _ := FailLinkedRecord(cmd);
    }

    method ProcessStaleCommand(cmd: nat, lease: Lease)
      requires Idle() && cmd in cmdRepo.rows && Active(cmdRepo.rows[cmd].status)
      modifies this, cmdRepo
      ensures Idle() && Treated(old(Machine()), Machine(), cmd, lease)
    {
      hide StillActive, Finish, IsRun, RunTo;
      var stillActive := CheckLease(cmd, lease.nodeSeen(cmd), lease.recordUpdated(cmd));
      if !stillActive {
        ExpireCommand(cmd);
      }
    }

    /** One pass of the timeout monitor over every command found stale at its start. */
    method ProcessStaleCommands(threshold: int, lease: Lease)
      requires Idle()
      modifies this, cmdRepo
      ensures Idle() && cmdRepo.rows.Keys == old(cmdRepo.rows).Keys
      ensures forall c :: c in old(cmdRepo.rows) ==> Swept(old(Machine()), Machine(), c, threshold, lease)
      ensures OthersKept(old(Machine()), Machine(), threshold, lease)
      ensures forall c :: c in old(cmdRepo.rows) ==>
        TimedOutUnlessLeased(old(cmdRepo.rows), old(records), cmdRepo.rows, records, c, threshold, lease)
    {
      hide StillActive, Finish, IsRun, RunTo, Swept, TimedOutUnlessLeased, Treated, SameRecord, Invariant, INITIAL;
      InitialInvariant();
      var ids := cmdRepo.ListStaleActive(threshold);
      ghost var start := Machine();
      NothingSwept(start, ids, threshold, lease);
      while ids != {}
        invariant Idle() && Sweeping(start, Machine(), ids, threshold, lease)
        decreases ids
      {
        var cmd :| cmd in ids;
        ghost var before := Machine();
        RunsKeepInvariant(INITIAL, events);
        ProcessStaleCommand(cmd, lease);
        SweepOne(start, before, Machine(), ids, cmd, threshold, lease);
        ids := ids - {cmd};
      }
      forall c | c in start.rows
        ensures TimedOutUnlessLeased(start.rows, start.records, Machine().rows, Machine().records, c, threshold, lease)
      {
        SweptOnTables(start, Machine(), c, threshold, lease);
      }
    }
  }
}
