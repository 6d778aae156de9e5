/** What the database makes, at start-up, of operations a restart interrupted. */
module Reconcile {
  import opened ByteStrings
  import opened Commands
  import AgentProtocol
  import TaskStart

  datatype Progress = Running | Done | Broken

  datatype BackupRow = BackupRow(task: nat, status: Progress)

  datatype Tables = Tables(commands: Rows, backups: map<nat, BackupRow>, restores: map<nat, Progress>,
                           verifications: map<nat, Progress>, replications: map<nat, Progress>, tasks: map<nat,
                               Progress>)

  predicate BackupNamed(rows: Rows, r: nat) {
    AgentProtocol.Named(rows, BackupRecord(r))
  }

  predicate RestoreNamed(rows: Rows, r: nat) {
    AgentProtocol.Named(rows, RestoreRecord(r))
  }

  predicate TaskRuns(backups: map<nat, BackupRow>, task: nat) {
    exists r :: r in backups && backups[r] == BackupRow(task, Running)
  }

  // ------------------------------------------------------------ the outcome

  function Fail(status: Progress, spared: bool): Progress {
    if status == Running && !spared then Broken else status
  }

  function ReconciledBackups(t: Tables): map<nat, BackupRow> {
    map r | r in t.backups :: t.backups[r].(status := Fail(t.backups[r].status, BackupNamed(t.commands, r)))
  }

  function Reconciled(t: Tables): Tables {
    var backups := ReconciledBackups(t);
    Tables(t.commands, backups,
           map r | r in t.restores :: Fail(t.restores[r], RestoreNamed(t.commands, r)),
           map r | r in t.verifications :: Fail(t.verifications[r], false),
           map r | r in t.replications :: Fail(t.replications[r], false),
           map k | k in t.tasks :: Fail(t.tasks[k], TaskRuns(backups, k)))
  }

  /** Rows that differ between two states of a table. */
  function Changed<T(==)>(before: map<nat, T>, after: map<nat, T>): set<nat> {
    set r | r in before && (r !in after || before[r] != after[r])
  }

  function RowsChanged(t: Tables, u: Tables): nat {
    |Changed(t.backups, u.backups)| + |Changed(t.restores, u.restores)| + |Changed(t.verifications, u.verifications)|
    + |Changed(t.replications, u.replications)| + |Changed(t.tasks, u.tasks)|
  }

  /** No operation is left running that nothing can finish. */
  ghost predicate Converged(t: Tables) {
    && (forall r :: r in t.backups && t.backups[r].status == Running ==> BackupNamed(t.commands, r))
    && (forall r :: r in t.restores && t.restores[r] == Running ==> RestoreNamed(t.commands, r))
    && (forall r :: r in t.verifications ==> t.verifications[r] != Running)
    && (forall r :: r in t.replications ==> t.replications[r] != Running)
    && (forall k :: k in t.tasks && t.tasks[k] == Running ==> TaskRuns(t.backups, k))
  }

  /** The outcome has converged, whatever was interrupted. */
  lemma ReconciledConverges(t: Tables)
    ensures Converged(Reconciled(t))
  {
    hide BackupNamed, RestoreNamed, TaskRuns;
  }

  /** Only what was running and is orphaned changes, and tables that have converged do not change at all. */
  lemma ReconciledOnlyOrphans(t: Tables)
    ensures forall r :: r in t.backups ==> (r in Changed(t.backups, Reconciled(t).backups) <==>
              t.backups[r].status == Running && !BackupNamed(t.commands, r))
    ensures forall r :: r in t.restores ==> (r in Changed(t.restores, Reconciled(t).restores) <==>
              t.restores[r] == Running && !RestoreNamed(t.commands, r))
    ensures Converged(t) ==> Reconciled(t) == t
  {
    hide BackupNamed, RestoreNamed, TaskRuns;
    if Converged(t) {
      assert ReconciledBackups(t) == t.backups;
      assert Reconciled(t).restores == t.restores && Reconciled(t).tasks == t.tasks;
      assert Reconciled(t).verifications == t.verifications && Reconciled(t).replications == t.replications;
    }
  }

  /** Some pending or dispatched command names the record. */
  ghost predicate Awaited(commands: Rows, id: RecordId) {
    exists c :: c in commands && commands[c].status in {Pending, Dispatched} && commands[c].kind == Linked(id)
  }

  ghost predicate HasRunning(backups: map<nat, BackupRow>, task: nat) {
    exists r :: r in backups && backups[r].task == task && backups[r].status == Running
  }

  lemma NamedIsAwaited(t: Tables)
    ensures forall r :: BackupNamed(t.commands, r) <==> Awaited(t.commands, BackupRecord(r))
    ensures forall r :: RestoreNamed(t.commands, r) <==> Awaited(t.commands, RestoreRecord(r))
    ensures forall backups, k :: TaskRuns(backups, k) <==> HasRunning(backups, k)
  {
    forall backups: map<nat, BackupRow>, k ensures TaskRuns(backups, k) <==> HasRunning(backups, k) {
      if r: nat :| r in backups && backups[r].task == k && backups[r].status == Running {
        assert backups[r] == BackupRow(k, Running);
      }
    }
  }

  /** Every row of the outcome: no row comes or goes, and none changes but from running to failed. */
  lemma ReconciledExactly(t: Tables)
    ensures var u := Reconciled(t);
      && u.commands == t.commands
      && u.backups == (map r | r in t.backups ::
           if t.backups[r].status == Running && !Awaited(t.commands, BackupRecord(r))
           then BackupRow(t.backups[r].task, Broken) else t.backups[r])
      && u.restores == (map r | r in t.restores ::
           if t.restores[r] == Running && !Awaited(t.commands, RestoreRecord(r)) then Broken else t.restores[r])
      && u.verifications == (map r | r in t.verifications ::
           if t.verifications[r] == Running then Broken else t.verifications[r])
      && u.replications == (map r | r in t.replications ::
           if t.replications[r] == Running then Broken else t.replications[r])
      && u.tasks == (map k | k in t.tasks ::
           if t.tasks[k] == Running && !HasRunning(u.backups, k) then Broken else t.tasks[k])
  {
    hide BackupNamed, RestoreNamed, TaskRuns, Awaited, HasRunning;
    NamedIsAwaited(t);
  }

  lemma ChangedAre<T>(before: map<nat, T>, after: map<nat, T>, rows: set<nat>)
    requires before.Keys == after.Keys && forall r :: r in rows <==> r in before && before[r] != after[r]
    ensures Changed(before, after) == rows
  {
  }

  /** The number of rows reported is that of the rows that were running and have failed. */
  lemma CountedExactly(t: Tables, backups: set<nat>, restores: set<nat>, verifications: set<nat>,
                       replications: set<nat>, tasks: set<nat>)
    requires forall r :: r in backups <==>
      r in t.backups && t.backups[r].status == Running && Reconciled(t).backups[r].status == Broken
    requires forall r :: r in restores <==>
      r in t.restores && t.restores[r] == Running && Reconciled(t).restores[r] == Broken
    requires forall r :: r in verifications <==> r in t.verifications && t.verifications[r] == Running
    requires forall r :: r in replications <==> r in t.replications && t.replications[r] == Running
    requires forall k :: k in tasks <==> k in t.tasks && t.tasks[k] == Running && Reconciled(t).tasks[k] == Broken
    ensures RowsChanged(t, Reconciled(t)) == |backups| + |restores| + |verifications| + |replications| + |tasks|
  {
    hide BackupNamed, RestoreNamed, TaskRuns, Changed;
    var u := Reconciled(t);
    ChangedAre(t.backups, u.backups, backups);
    ChangedAre(t.restores, u.restores, restores);
    ChangedAre(t.verifications, u.verifications, verifications);
    ChangedAre(t.replications, u.replications, replications);
    ChangedAre(t.tasks, u.tasks, tasks);
  }

  lemma NothingChanged(t: Tables)
    ensures RowsChanged(t, t) == 0
  {
    assert Changed(t.backups, t.backups) == {} && Changed(t.restores, t.restores) == {};
    assert Changed(t.verifications, t.verifications) == {} && Changed(t.replications, t.replications) == {};
    assert Changed(t.tasks, t.tasks) == {};
  }

  lemma UnchangedIffNoRows(t: Tables)
    ensures RowsChanged(t, Reconciled(t)) == 0 <==> Reconciled(t) == t
  {
    hide BackupNamed, RestoreNamed, TaskRuns, Fail;
    var u := Reconciled(t);
    NothingChanged(t);
    if RowsChanged(t, u) == 0 {
      SameTable(t.backups, u.backups);
      SameTable(t.restores, u.restores);
      SameTable(t.verifications, u.verifications);
      SameTable(t.replications, u.replications);
      SameTable(t.tasks, u.tasks);
    }
  }

  lemma SameTable<T>(before: map<nat, T>, after: map<nat, T>)
    requires before.Keys == after.Keys && |Changed(before, after)| == 0
    ensures before == after
  {
    assert forall r :: r in before ==> r !in Changed(before, after);
  }

  /** Seen through the protocol, this is the restart step of the master. */
  function AsRecord(status: Progress): AgentProtocol.RecordStatus {
    match status
    case Running => AgentProtocol.RecordRunning
    case Done => AgentProtocol.RecordSuccess
    case Broken => AgentProtocol.RecordFailed
  }

  /** Both record tables, as the protocol machine sees them. */
  function AsRecords(t: Tables): AgentProtocol.Records {
    (map r | r in t.backups :: BackupRecord(r) := AsRecord(t.backups[r].status))
    + (map r | r in t.restores :: RestoreRecord(r) := AsRecord(t.restores[r]))
  }

  lemma RecordOf(t: Tables, id: RecordId)
    ensures id in AsRecords(t)
        <==> match id case BackupRecord(r) => r in t.backups case RestoreRecord(r) => r in t.restores
    ensures id.BackupRecord? && id in AsRecords(t) ==> AsRecords(t)[id] == AsRecord(t.backups[id.id].status)
    ensures id.RestoreRecord? && id in AsRecords(t) ==> AsRecords(t)[id] == AsRecord(t.restores[id.id])
  {
  }

  lemma ReconcileIsRestart(t: Tables)
    ensures AsRecords(Reconciled(t)) == AgentProtocol.Restarted(t.commands, AsRecords(t))
  {
    hide AgentProtocol.Named, AsRecords;
    var before, after := AsRecords(t), AsRecords(Reconciled(t));
    forall id ensures id in before <==> id in after {
      RecordOf(t, id);
      RecordOf(Reconciled(t), id);
    }
    forall id | id in before ensures after[id] == AgentProtocol.Restarted(t.commands, before)[id] {
      RecordOf(t, id);
      RecordOf(Reconciled(t), id);
    }
  }

  function AsStatus(status: Progress): TaskStart.Status {
    match status
    case Running => TaskStart.Running
    case Done => TaskStart.Success
    case Broken => TaskStart.Failed
  }

  /** The backup records as calls that start a backup task see them. */
  function AsStarted(backups: map<nat, BackupRow>): map<nat, TaskStart.Record> {
    map r | r in backups :: TaskStart.Record(backups[r].task, AsStatus(backups[r].status))
  }

  /** On backup records this is also the restart step of starting: the calls and their locks are gone. */
  lemma ReconcileIsStartRestart(t: Tables, s: TaskStart.State, named: set<nat>)
    requires s.records == AsStarted(t.backups)
    requires forall r :: r in t.backups ==> (r in named <==> BackupNamed(t.commands, r))
    ensures TaskStart.Next(s, TaskStart.Restart(named), true)
        == TaskStart.State(AsStarted(Reconciled(t).backups), map[], map[], s.used)
  {
    hide BackupNamed;
  }

  // ------------------------------------------------------------ the transaction

  class Database {
    var commands: Rows
    var backups: map<nat, BackupRow>
    var restores: map<nat, Progress>
    var verifications: map<nat, Progress>
    var replications: map<nat, Progress>
    var tasks: map<nat, Progress>

    function State(): Tables
      reads this
    {
      Tables(commands, backups, restores, verifications, replications, tasks)
    }

    constructor (t: Tables)
      ensures State() == t
    {
      commands, backups, restores := t.commands, t.backups, t.restores;
      verifications, replications, tasks := t.verifications, t.replications, t.tasks;
    }

    /** Lists the backup and restore records named by active commands. */
    method ActiveRecords() returns (activeBackups: seq<nat>, activeRestores: seq<nat>)
      ensures forall r :: r in activeBackups <==> BackupNamed(commands, r)
      ensures forall r :: r in activeRestores <==> RestoreNamed(commands, r)
    {
      activeBackups, activeRestores := [], [];
      var todo := set c | c in commands && Active(commands[c].status);
      var active := todo;
      while todo != {}
        invariant todo <= active
        invariant forall r ::
          r in activeBackups <==> exists c :: c in active - todo && commands[c].kind == Linked(BackupRecord(r))
        invariant forall r ::
          r in activeRestores <==> exists c :: c in active - todo && commands[c].kind == Linked(RestoreRecord(r))
        decreases todo
      {
        var c :| c in todo;
        match commands[c].kind {
          case Linked(BackupRecord(r)) => activeBackups := activeBackups + [r];
          case Linked(RestoreRecord(r)) => activeRestores := activeRestores + [r];
          case _ =>
        }
        todo := todo - {c};
      }
    }

    /** UPDATE … SET failed WHERE running AND id NOT IN spared, and the rows affected. */
    static method MarkFailed(table: map<nat, Progress>, spared: seq<nat>)
      returns (after: map<nat, Progress>, affected: nat)
      ensures after == map r | r in table :: Fail(table[r], r in spared)
      ensures affected == |Changed(table, after)|
    {
      var hit := set r | r in table && table[r] == Running && r !in spared;
      after := map r | r in table :: if r in hit then Broken else table[r];
      affected := |hit|;
      assert Changed(table, after) == hit;
    }

    method MarkBackupsFailed(spared: seq<nat>) returns (affected: nat)
      modifies `backups
      ensures backups == map r | r in old(backups) ::
          old(backups)[r].(status := Fail(old(backups)[r].status, r in spared))
      ensures affected == |Changed(old(backups), backups)|
    {
      var hit := set r | r in backups && backups[r].status == Running && r !in spared;
      backups := map r | r in backups :: if r in hit then backups[r].(status := Broken) else backups[r];
      assert Changed(old(backups), backups) == hit;
      affected := |hit|;
    }

    /** UPDATE … SET failed WHERE running AND NOT EXISTS a running record of that backup task. */
    method MarkTasksFailed() returns (affected: nat)
      modifies `tasks
      ensures tasks == map k | k in old(tasks) :: Fail(old(tasks)[k], TaskRuns(backups, k))
      ensures affected == |Changed(old(tasks), tasks)|
    {
      var hit := set k | k in tasks && tasks[k] == Running && !TaskRuns(backups, k);
      tasks := map k | k in tasks :: if k in hit then Broken else tasks[k];
      assert Changed(old(tasks), tasks) == hit;
      affected := |hit|;
    }

    method MarkOthersFailed(spared: seq<nat>) returns (affected: nat)
      modifies `restores, `verifications, `replications
      ensures restores == map r | r in old(restores) :: Fail(old(restores)[r], r in spared)
      ensures verifications == map r | r in old(verifications) :: Fail(old(verifications)[r], false)
      ensures replications == map r | r in old(replications) :: Fail(old(replications)[r], false)
      ensures affected == |Changed(old(restores), restores)| + |Changed(old(verifications), verifications)|
                          + |Changed(old(replications), replications)|
    {
      hide Fail, Changed;
      restores, affected := MarkFailed(restores, spared);
      var count: nat;
      verifications, count := MarkFailed(verifications, []);
      affected := affected + count;
      replications, count := MarkFailed(replications, []);
      affected := affected + count;
    }

    method ReconcileInterruptedOperations() returns (reconciled: nat)
      modifies this
      ensures State() == Reconciled(old(State())) && reconciled == RowsChanged(old(State()), State())
      ensures Converged(State()) && (reconciled == 0 <==> State() == old(State()))
    {
      hide BackupNamed, RestoreNamed, TaskRuns, Fail, Converged, Changed;
      ghost var before := State();
      var activeBackups, activeRestores := ActiveRecords();
      reconciled := MarkBackupsFailed(activeBackups);
      assert backups == ReconciledBackups(before);
      var count := MarkOthersFailed(activeRestores);
      assert restores == Reconciled(before).restores;
      reconciled := reconciled + count;
      count := MarkTasksFailed();
      reconciled := reconciled + count;
      ReconciledConverges(before);
      UnchangedIffNoRows(before);
    }
  }
}
