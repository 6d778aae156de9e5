/** The agent command queue: one table, changed only by conditional updates. */
module Commands {
  import opened ByteStrings

  datatype Status = Pending | Dispatched | Succeeded | Failed | TimedOut

  /** Records of backups and of restores live in tables of their own. */
  datatype RecordId = BackupRecord(id: nat) | RestoreRecord(id: nat)

  /**
   * What a command is for: run_task and restore_record name the record they report to,
   * unless their payload cannot be read; other commands have none.
   */
  datatype Kind = Linked(record: RecordId) | Malformed | OtherCommand

  datatype Command = Command(node: nat, kind: Kind, status: Status, result: string, errorMessage: string,
                             createdAt: int, dispatchedAt: int)

  type Rows = map<nat, Command>

  predicate Active(s: Status) {
    s == Pending || s == Dispatched
  }

  predicate Terminal(s: Status) {
    !Active(s)
  }

  // ------------------------------------------------------------ the conditional updates

  /** UPDATE … SET dispatched WHERE id AND pending */
  function Claim(rows: Rows, id: nat, now: int): Rows {
    if id in rows && rows[id].status == Pending
    then rows[id := rows[id].(status := Dispatched, dispatchedAt := now)] else rows
  }

  predicate CanComplete(rows: Rows, id: nat, node: nat) {
    id in rows && rows[id].node == node && rows[id].status == Dispatched
  }

  /** UPDATE … SET status, error, result WHERE id AND node AND dispatched */
  function Complete(rows: Rows, id: nat, node: nat, status: Status, errorMessage: string, result: string): Rows {
    if CanComplete(rows, id, node)
    then rows[id := rows[id].(status := status, errorMessage := errorMessage, result := result)] else rows
  }

  /** UPDATE … SET timeout WHERE id AND status IN (pending, dispatched) */
  function Expire(rows: Rows, id: nat, errorMessage: string): Rows {
    if id in rows && Active(rows[id].status)
    then rows[id := rows[id].(status := TimedOut, errorMessage := errorMessage)] else rows
  }

  predicate Stale(c: Command, threshold: int) {
    || (c.status == Pending && c.createdAt < threshold)
    || (c.status == Dispatched && c.dispatchedAt < threshold)
  }

  // ------------------------------------------------------------ what they allow

  /** The only ways a command's status moves. */
  predicate Moves(before: Status, after: Status) {
    || before == after
    || (before == Pending && after in {Dispatched, TimedOut})
    || (before == Dispatched && after in {Succeeded, Failed, TimedOut})
  }

  /** No row disappears, statuses only move forward, and a finished row keeps status, result and error. */
  ghost predicate Advances(before: Rows, after: Rows) {
    forall id :: id in before ==>
      && id in after
      && after[id].node == before[id].node && after[id].kind == before[id].kind
      && Moves(before[id].status, after[id].status)
      && (Terminal(before[id].status) ==> after[id] == before[id])
  }

  lemma UpdatesAdvance(rows: Rows, id: nat, node: nat, now: int, success: bool, errorMessage: string, result: string)
    ensures Advances(rows, Claim(rows, id, now))
    ensures Advances(rows, Complete(rows, id, node, if success then Succeeded else Failed, errorMessage, result))
    ensures Advances(rows, Expire(rows, id, errorMessage))
  {
  }

  lemma UnchangedRowsAdvance(rows: Rows)
    ensures Advances(rows, rows)
  {
  }

  // ------------------------------------------------------------ the repository

  class AgentCommandRepository {
    var rows: Rows
    var nextId: nat

    /** Ids are given out in ascending order and never again. */
    predicate Numbered()
      reads this
    {
      forall id :: id in rows ==> id < nextId
    }

    constructor ()
      ensures rows == map[] && Numbered()
    {
      rows, nextId := map[], 1;
    }

    method Create(command: Command) returns (id: nat)
      requires Numbered()
      modifies this
      ensures Numbered() && id !in old(rows) && rows == old(rows)[id := command]
    {
      id := nextId;
      rows := rows[id := command];
      nextId := nextId + 1;
    }

    /** Hands the node its oldest pending command, if that is still pending when updated. */
    method ClaimPending(node: nat, now: int) returns (claimed: Option<nat>)
      modifies `rows
      ensures claimed.Some? ==>
        && claimed.value in old(rows) && old(rows)[claimed.value].node == node
            && old(rows)[claimed.value].status == Pending
        && (forall id :: id in old(rows) && old(rows)[id].node == node && old(rows)[id].status == Pending ==>
          claimed.value <= id)
        && rows == Claim(old(rows), claimed.value, now)
      ensures claimed.Some? ==> var was := old(rows)[claimed.value];
        rows == old(rows)[claimed.value :=
          Command(was.node, was.kind, Dispatched, was.result, was.errorMessage, was.createdAt, now)]
      ensures claimed.None? ==> rows == old(rows)
      ensures claimed.None? ==> forall id :: id in rows && rows[id].node == node ==> rows[id].status != Pending
    {
      var candidates := set id | id in rows && rows[id].node == node && rows[id].status == Pending;
      if candidates == {} {
        assert forall id :: id in rows && rows[id].node == node && rows[id].status == Pending ==> id in candidates;
        return None;
      }
      var oldest :| oldest in candidates;
      var rest := candidates - {oldest};
      while rest != {}
        invariant rest <= candidates && oldest in candidates
        invariant forall id :: id in candidates ==> id in rest || oldest <= id
        decreases rest
      {
        var id :| id in rest;
        oldest := if id < oldest then id else oldest;
        rest := rest - {id};
      }
      forall id | id in rows && rows[id].node == node && rows[id].status == Pending ensures oldest <= id {
        assert id in candidates;
      }
      rows := rows[oldest := rows[oldest].(status := Dispatched, dispatchedAt := now)];
      return Some(oldest);
    }

    method CompleteDispatched(id: nat, node: nat, status: Status, errorMessage: string, result: string)
      returns (completed: bool)
      modifies `rows
      ensures completed == CanComplete(old(rows), id, node)
      ensures rows == Complete(old(rows), id, node, status, errorMessage, result)
      ensures completed <==> id in old(rows) && old(rows)[id].node == node && old(rows)[id].status == Dispatched
      ensures completed ==> var was := old(rows)[id];
        rows == old(rows)[id := Command(node, was.kind, status, result, errorMessage, was.createdAt, was.dispatchedAt)]
      ensures !completed ==> rows == old(rows)
    {
      completed := CanComplete(rows, id, node);
      if completed {
        rows := rows[id := rows[id].(status := status, errorMessage := errorMessage, result := result)];
      }
    }

    method TimeoutActive(id: nat, errorMessage: string) returns (timedOut: bool)
      modifies `rows
      ensures timedOut == (id in old(rows) && Active(old(rows)[id].status))
      ensures rows == Expire(old(rows), id, errorMessage)
      ensures timedOut <==> id in old(rows) && old(rows)[id].status in {Pending, Dispatched}
      ensures timedOut ==> var was := old(rows)[id];
        rows == old(rows)[id :=
          Command(was.node, was.kind, TimedOut, was.result, errorMessage, was.createdAt, was.dispatchedAt)]
      ensures !timedOut ==> rows == old(rows)
    {
      timedOut := id in rows && Active(rows[id].status);
      if timedOut {
        rows := rows[id := rows[id].(status := TimedOut, errorMessage := errorMessage)];
      }
    }

    /** Commands that have been pending, or dispatched, since before the threshold. */
    method ListStaleActive(threshold: int) returns (ids: set<nat>)
      ensures forall id :: id in ids <==> id in rows && Stale(rows[id], threshold)
      ensures ids <= rows.Keys && forall id :: id in rows ==>
        (id in ids <==> (rows[id].status == Pending && rows[id].createdAt < threshold)
                        || (rows[id].status == Dispatched && rows[id].dispatchedAt < threshold))
    {
      ids := set id | id in rows && Stale(rows[id], threshold);
    }
  }
}
