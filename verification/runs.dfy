/**
 Whole histories of a storage target: locked uploads, snapshot deletions and prunes, each
 possibly cut short by a crash or a failed provider call.
 */
module Runs {
  import opened ByteStrings
  import opened Codec
  import opened Packs
  import opened Paths
  import opened Store
  import opened Calls
  import opened Upload
  import opened Prune
  import opened Restore
  import Chunker

  datatype Operation =
    | UploadSnapshot(plan: Plan, us: seq<EncodedChunk>, name: string, checksum: nat)
    | DeleteSnapshot(name: string)
    | PruneAll(dead: seq<nat>, orphans: seq<nat>)

  /**
   How an operation stopped after its last completed call: it ran out of calls or crashed;
   the next pack upload failed midway, leaving some bytes under its key; or the next index
   upload was refused and the pack just stored was deleted again.
   */
  datatype Ending = Stopped | PackLeftPartial(bytes: Bytes) | IndexRefused

  datatype Step = Step(op: Operation, cut: nat, ending: Ending)

  function CallsOf(c: Primitives, packSize: int, op: Operation): seq<Call> {
    match op
    case UploadSnapshot(plan, us, name, checksum) => UploadCalls(c, packSize, plan, us, name, checksum)
    case DeleteSnapshot(name) => [Delete(SnapshotKey(name))]
    case PruneAll(dead, orphans) => PruneCalls(dead, orphans)
  }

  predicate PutsPack(call: Call) {
    call.Put? && call.key.PackKey?
  }

  predicate PutsIndex(call: Call) {
    call.Put? && call.key.IndexKey?
  }

  /** The calls a step makes in fact. */
  function Made(c: Primitives, packSize: int, step: Step): seq<Call>
    requires step.cut <= |CallsOf(c, packSize, step.op)|
  {
    var calls := CallsOf(c, packSize, step.op);
    var done := calls[..step.cut];
    match step.ending
    case Stopped => done
    case PackLeftPartial(bytes) =>
      if step.cut < |calls| && PutsPack(calls[step.cut])
      then done + [Put(calls[step.cut].key, PackObject(bytes))] else done
    case IndexRefused =>
      if step.cut < |calls| && PutsIndex(calls[step.cut])
      then done + [Delete(PackKey(calls[step.cut].key.digest))] else done
  }

  /** The per-target lock lets an operation compute its calls from the state it starts in. */
  ghost predicate Enabled(c: Primitives, universe: iset<EncodedChunk>, packSize: int, objects: Objects, step: Step) {
    && step.cut <= |CallsOf(c, packSize, step.op)|
    && match step.op
       case UploadSnapshot(plan, us, _, _) => UploadReady(c, universe, objects, plan, us)
       case DeleteSnapshot(_) => true
       case PruneAll(dead, orphans) => PruneOrders(objects, dead, orphans)
  }

  /** A run: each step starts from what the previous one left. */
  ghost predicate IsRun(c: Primitives, universe: iset<EncodedChunk>, packSize: int, objects: Objects, steps: seq<Step>)
    decreases steps
  {
    steps == [] ||
    (Enabled(c, universe, packSize, objects, steps[0]) &&
     IsRun(c, universe, packSize, ApplyAll(objects, Made(c, packSize, steps[0])), steps[1..]))
  }

  ghost function RunTo(c: Primitives, universe: iset<EncodedChunk>, packSize: int, objects: Objects,
                       steps: seq<Step>): Objects
    requires IsRun(c, universe, packSize, objects, steps)
    decreases steps
  {
    if steps == [] then objects
    else RunTo(c, universe, packSize, ApplyAll(objects, Made(c, packSize, steps[0])), steps[1..])
  }

  lemma StepIsSafe(c: Primitives, universe: iset<EncodedChunk>, packSize: int, objects: Objects, op: Operation)
    requires Lawful(c) && UniquelyDecodable(universe) && Sound(c, universe, packSize, objects)
    requires Enabled(c, universe, packSize, objects, Step(op, 0, Stopped))
    ensures SafeCalls(c, universe, packSize, objects, CallsOf(c, packSize, op))
  {
    match op
    case UploadSnapshot(plan, us, name, checksum) =>
      UploadIsSafe(c, universe, packSize, objects, plan, us, name, checksum);
    case DeleteSnapshot(name) =>
      SafeSnoc(c, universe, packSize, objects, [], Delete(SnapshotKey(name)));
    case PruneAll(dead, orphans) =>
      PruneCallsOrderly(objects, dead, orphans);
      OrderlyDeletesAreSafe(c, universe, packSize, objects, PruneCalls(dead, orphans));
  }

  /** The failure endings are as safe as the call they replace. */
  lemma FailureIsSafe(c: Primitives, universe: iset<EncodedChunk>, packSize: int, objects: Objects, next: Call,
                      bytes: Bytes)
    requires SafeCall(c, universe, packSize, objects, next)
    ensures PutsPack(next) ==> SafeCall(c, universe, packSize, objects, Put(next.key, PackObject(bytes)))
    ensures PutsIndex(next) ==> SafeCall(c, universe, packSize, objects, Delete(PackKey(next.key.digest)))
  {
  }

  lemma SafeAt(c: Primitives, universe: iset<EncodedChunk>, packSize: int, objects: Objects, calls: seq<Call>, cut: nat)
    requires Sound(c, universe, packSize, objects) && SafeCalls(c, universe, packSize, objects, calls)
    requires cut < |calls|
    ensures SafeCall(c, universe, packSize, ApplyAll(objects, calls[..cut]), calls[cut])
  {
    SafeCallsKeepSound(c, universe, packSize, objects, calls, cut + 1);
    assert calls[..cut + 1][..cut] == calls[..cut];
  }

  /** Wherever a step stops, and however it fails, the repository stays sound. */
  lemma StepKeepsSound(c: Primitives, universe: iset<EncodedChunk>, packSize: int, objects: Objects, step: Step)
    requires Lawful(c) && UniquelyDecodable(universe) && Sound(c, universe, packSize, objects)
    requires Enabled(c, universe, packSize, objects, step)
    ensures Sound(c, universe, packSize, ApplyAll(objects, Made(c, packSize, step)))
  {
    hide Sound, SafeCall, SafeCalls, Lawful, UniquelyDecodable, UploadReady, PruneOrders, UploadCalls, PruneCalls,
      ApplyAll;
    StepIsSafe(c, universe, packSize, objects, step.op);
    var calls, made := CallsOf(c, packSize, step.op), Made(c, packSize, step);
    SafeCallsKeepSound(c, universe, packSize, objects, calls, step.cut);
    var done := calls[..step.cut];
    if made != done {
      var now := ApplyAll(objects, done);
      SafeAt(c, universe, packSize, objects, calls, step.cut);
      FailureIsSafe(c, universe, packSize, now, calls[step.cut], if step.ending.PackLeftPartial? then step.ending.bytes
          else []);
      ApplySnoc(objects, done, made[step.cut]);
      SafeCallKeepsSound(c, universe, packSize, now, made[step.cut]);
    }
  }

  /** In every run, at every point of every operation, the repository is sound. */
  lemma {:induction false} RunsKeepSound(c: Primitives, universe: iset<EncodedChunk>, packSize: int, objects: Objects,
                                         steps: seq<Step>)
    requires Lawful(c) && UniquelyDecodable(universe) && Sound(c, universe, packSize, objects)
    requires IsRun(c, universe, packSize, objects, steps)
    ensures Sound(c, universe, packSize, RunTo(c, universe, packSize, objects, steps))
    decreases steps
  {
    if steps != [] {
      StepKeepsSound(c, universe, packSize, objects, steps[0]);
      RunsKeepSound(c, universe, packSize, ApplyAll(objects, Made(c, packSize, steps[0])), steps[1..]);
    }
  }

  /** A target that starts out empty is sound for as long as it is used. */
  lemma NewTargetsStaySound(c: Primitives, universe: iset<EncodedChunk>, packSize: int, steps: seq<Step>)
    requires Lawful(c) && UniquelyDecodable(universe) && IsRun(c, universe, packSize, map[], steps)
    ensures Sound(c, universe, packSize, RunTo(c, universe, packSize, map[], steps))
  {
    hide IsRun, RunTo;
    RunsKeepSound(c, universe, packSize, map[], steps);
  }

  // ------------------------------------------------------------ end to end

  ghost predicate Untouched(steps: seq<Step>, name: string) {
    forall i :: 0 <= i < |steps| ==>
      match steps[i].op
      case UploadSnapshot(_, _, n, _) => n != name
      case DeleteSnapshot(n) => n != name
      case PruneAll(_, _) => true
  }

  predicate Touches(call: Call, name: string) {
    call.key == SnapshotKey(name)
  }

  lemma {:induction false} OthersLeaveSnapshot(objects: Objects, calls: seq<Call>, name: string)
    requires forall i :: 0 <= i < |calls| ==> !Touches(calls[i], name)
    ensures SnapshotKey(name) in ApplyAll(objects, calls) <==> SnapshotKey(name) in objects
    ensures SnapshotKey(name) in objects ==> ApplyAll(objects, calls)[SnapshotKey(name)] == objects[SnapshotKey(name)]
  {
    if calls != [] {
      OthersLeaveSnapshot(objects, calls[..|calls| - 1], name);
    }
  }

  lemma {:induction false} PackCallsTouchNoSnapshot(c: Primitives, groups: seq<seq<EncodedChunk>>)
    ensures forall i :: 0 <= i < |PackCalls(c, groups)| ==> !PackCalls(c, groups)[i].key.SnapshotKey?
  {
    if groups != [] {
      PackCallsTouchNoSnapshot(c, groups[..|groups| - 1]);
    }
  }

  lemma {:induction false} DeadCallsTouchNoSnapshot(dead: seq<nat>)
    ensures forall i :: 0 <= i < |DeadCalls(dead)| ==> !DeadCalls(dead)[i].key.SnapshotKey?
  {
    if dead != [] {
      DeadCallsTouchNoSnapshot(dead[..|dead| - 1]);
    }
  }

  lemma StepLeavesSnapshot(c: Primitives, packSize: int, objects: Objects, step: Step, name: string)
    requires step.cut <= |CallsOf(c, packSize, step.op)| && Untouched([step], name)
    ensures SnapshotKey(name) in objects ==>
      var after := ApplyAll(objects, Made(c, packSize, step));
      SnapshotKey(name) in after && after[SnapshotKey(name)] == objects[SnapshotKey(name)]
  {
    assert [step][0] == step;
    match step.op {
      case UploadSnapshot(plan, us, n, checksum) => PackCallsTouchNoSnapshot(c, Grouped(us, packSize));
      case DeleteSnapshot(n) =>
      case PruneAll(dead, orphans) => DeadCallsTouchNoSnapshot(dead);
    }
    var calls := CallsOf(c, packSize, step.op);
    assert forall i :: 0 <= i < |calls| ==> !Touches(calls[i], name);
    OthersLeaveSnapshot(objects, Made(c, packSize, step), name);
  }

  lemma {:induction false} RunsLeaveSnapshot(c: Primitives, universe: iset<EncodedChunk>, packSize: int,
                                            objects: Objects, steps: seq<Step>, name: string)
    requires IsRun(c, universe, packSize, objects, steps) && Untouched(steps, name)
    requires SnapshotKey(name) in objects
    ensures var after := RunTo(c, universe, packSize, objects, steps);
      SnapshotKey(name) in after && after[SnapshotKey(name)] == objects[SnapshotKey(name)]
    decreases steps
  {
    if steps != [] {
      assert Untouched([steps[0]], name);
      assert Untouched(steps[1..], name);
      StepLeavesSnapshot(c, packSize, objects, steps[0], name);
      RunsLeaveSnapshot(c, universe, packSize, ApplyAll(objects, Made(c, packSize, steps[0])), steps[1..], name);
    }
  }

  /** The snapshot a plan carries is the one of this walk. */
  predicate Scanned(c: Primitives, p: Chunker.Params, visits: seq<Visit>, snapshot: Snapshot)
    requires Chunker.ValidParams(p)
  {
    snapshot.entries == EntriesOf(c, p, visits, snapshot.compression, snapshot.encrypted)
  }

  /** A completed upload leaves the snapshot stored. */
  lemma UploadStores(c: Primitives, packSize: int, objects: Objects, plan: Plan, us: seq<EncodedChunk>, name: string,
                     checksum: nat)
    ensures var after := ApplyAll(objects, UploadCalls(c, packSize, plan, us, name, checksum));
      SnapshotKey(name) in after && after[SnapshotKey(name)] == SnapshotObject(plan.snapshot, checksum)
  {
    ApplySnoc(objects, PackCalls(c, Grouped(us, packSize)),
        Put(SnapshotKey(name), SnapshotObject(plan.snapshot, checksum)));
  }

  lemma SnapshotFacts(c: Primitives, objects: Objects, name: string, snapshot: Snapshot, checksum: nat)
    requires SnapshotIntact(c, objects, name)
    requires objects[SnapshotKey(name)] == SnapshotObject(snapshot, checksum)
    ensures ReadSnapshot(c, objects, name, Some(checksum)) == Ok(snapshot)
    ensures ValidEntries(snapshot.entries, snapshot.encrypted)
    ensures forall i, j :: 0 <= i < j < |snapshot.entries| ==> snapshot.entries[i].path != snapshot.entries[j].path
    ensures forall id :: id in ChunksOf(snapshot) ==> Indexed(objects, id)
  {
    hide ValidEntry;
  }

  /**
   The end-to-end promise. Scan a tree, upload it onto whatever a history of runs has left,
   and then let any further history pass that does not delete or replace this snapshot:
   restoring it gives back every wanted file with its exact content, every wanted directory
   and every wanted link leading where it led, and besides only the directories above them.
   Exporting it gives the whole walk in order.
   */
  lemma BackupRestores(c: Primitives, universe: iset<EncodedChunk>, packSize: int, p: Chunker.Params,
                       before: Objects, visits: seq<Visit>, plan: Plan, us: seq<EncodedChunk>,
                       name: string, checksum: nat, later: seq<Step>,
                       locations: map<ChunkId, Location>, selected: seq<string>)
    requires Lawful(c) && UniquelyDecodable(universe) && Chunker.ValidParams(p)
    requires Sound(c, universe, packSize, before)
    requires Walked(visits) && Scanned(c, p, visits, plan.snapshot) && UploadReady(c, universe, before, plan, us)
    requires var stored := ApplyAll(before, UploadCalls(c, packSize, plan, us, name, checksum));
      && IsRun(c, universe, packSize, stored, later) && Untouched(later, name)
      && IsIndexOf(RunTo(c, universe, packSize, stored, later), locations)
    ensures var stored := ApplyAll(before, UploadCalls(c, packSize, plan, us, name, checksum));
      var now := RunTo(c, universe, packSize, stored, later);
      var restored := RestoreEntries(c, now, locations, plan.snapshot.entries, selected);
      && ReadSnapshot(c, now, name, Some(checksum)) == Ok(plan.snapshot)
      && restored.Ok? && RestoredFrom(visits, selected, restored.value)
      && (forall v :: v in visits && !v.node.SpecialNode? && v.path in restored.value ==>
            SameNode(v.path, restored.value[v.path], v.node))
      && (forall at :: at in restored.value <==>
            exists v :: v in visits && !v.node.SpecialNode? && AskedFor(v.path, selected, at))
      && (selected == [] ==>
            forall at ::
              at in restored.value <==> exists v :: v in visits && !v.node.SpecialNode? && v.path == at)
      && ExportEntries(c, now, locations, plan.snapshot.entries) == Ok(Supported(visits))
  {
    hide UploadCalls, UploadReady, RestoreEntries, ExportEntries, EntriesOf, ValidEntries, RestoredFrom, SameNode,
      Walked, DistinctNames, Indexed, IsIndexOf, ReadSnapshot, AskedFor;
    var calls := UploadCalls(c, packSize, plan, us, name, checksum);
    UploadIsSafe(c, universe, packSize, before, plan, us, name, checksum);
    SafeCallsKeepSound(c, universe, packSize, before, calls, |calls|);
    assert calls[..|calls|] == calls;
    var stored := ApplyAll(before, calls);
    UploadStores(c, packSize, before, plan, us, name, checksum);
    RunsKeepSound(c, universe, packSize, stored, later);
    RunsLeaveSnapshot(c, universe, packSize, stored, later, name);
    var now := RunTo(c, universe, packSize, stored, later);
    var entries := plan.snapshot.entries;
    forall i, j | 0 <= i < |entries| && 0 <= j < |entries[i].chunks| ensures Indexed(now, entries[i].chunks[j]) {
      assert entries[i].chunks[j] in ChunksOf(plan.snapshot);
    }
    var k, e := plan.snapshot.compression, plan.snapshot.encrypted;
    SnapshotFacts(c, now, name, plan.snapshot, checksum);
    ValidWalkIsDistinct(c, p, visits, k, e);
    EntriesReadBack(c, p, universe, packSize, now, locations, visits, k, e, selected);
    var tree := RestoreEntries(c, now, locations, entries, selected).value;
    RestoredIsSame(c, p, visits, k, e, selected, tree);
    RestoredByElements(c, p, visits, k, e, selected, tree);
    if selected == [] {
      EverythingRestored(visits, tree);
    }
  }
}
