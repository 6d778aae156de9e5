/** A backup, a prune and a restore, by the methods that do them, one after the other. */
module EndToEnd {
  import opened ByteStrings
  import opened Codec
  import opened Packs
  import opened Store
  import opened Calls
  import opened Upload
  import opened Prune
  import opened Restore
  import opened Runs
  import opened Repository
  import Backup
  import Chunker
  import Maintenance
  import Reading
  import Scanner

  /** Every chunk a writer in this mode may put into a pack, whatever random bytes it draws, is in the universe. */
  ghost predicate Writable(c: Primitives, universe: iset<EncodedChunk>, k: Compression, e: bool) {
    forall raw, nonce {:trigger c.encode(raw, k, e, IdOf(c, raw, k, e), nonce)} :: 0 < |raw| <= CHUNK_MAX ==>
      EncodedChunk(IdOf(c, raw, k, e), raw, k, e, c.encode(raw, k, e, IdOf(c, raw, k, e), nonce)) in universe
  }

  lemma PreparedIsReady(c: Primitives, universe: iset<EncodedChunk>, objects: Objects, plan: Plan,
                        us: seq<EncodedChunk>)
    requires Prepared(c, objects, plan, us)
    requires Writable(c, universe, plan.snapshot.compression, plan.snapshot.encrypted)
    ensures UploadReady(c, universe, objects, plan, us)
  {
    hide Missing, ValidSnapshot;
    var missing := Missing(objects, plan.order);
    MissingExactly(objects, plan.order);
    forall i | 0 <= i < |us| ensures us[i] in universe {
      assert missing[i] in plan.chunks;
      EncodedIsWritable(c, universe, plan, missing[i], us[i]);
    }
  }

  lemma EncodedIsWritable(c: Primitives, universe: iset<EncodedChunk>, plan: Plan, id: ChunkId, u: EncodedChunk)
    requires Writable(c, universe, plan.snapshot.compression, plan.snapshot.encrypted)
    requires InSpool(plan, id) && EncodingOf(c, plan, id, u) && 0 < |Raw(plan, id)| <= CHUNK_MAX
    requires id == IdOf(c, Raw(plan, id), plan.snapshot.compression, plan.snapshot.encrypted)
    ensures u in universe
  {
    var s := plan.snapshot;
    var raw := Raw(plan, id);
    var nonce :| u == EncodedChunk(id, raw, s.compression, s.encrypted,
        c.encode(raw, s.compression, s.encrypted, id, nonce));
    assert c.encode(raw, s.compression, s.encrypted, IdOf(c, raw, s.compression, s.encrypted), nonce) == u.encoded;
  }

  /**
   Scans a walk, uploads it to a sound repository, prunes the repository and restores the
   snapshot. Once the upload has reported success, the restore succeeds and gives the
   walked tree, however the prune went; and the repository is sound in any case.
   */
  method BackUpAndRestore(c: Primitives, packSize: int, p: Chunker.Params, provider: Provider, visits: seq<Visit>,
                          k: Compression, e: bool, name: string, checksum: nat, selected: seq<string>,
                          ghost universe: iset<EncodedChunk>)
    returns (stored: bool, r: Result<Tree, RepositoryError>)
    requires Lawful(c) && UniquelyDecodable(universe) && Writable(c, universe, k, e)
    requires Chunker.ValidParams(p) && p.maxSize <= CHUNK_MAX && Walked(visits)
    requires Sound(c, universe, packSize, provider.objects)
    modifies provider
    ensures Sound(c, universe, packSize, provider.objects)
    ensures stored ==> r.Ok? && RestoredFrom(visits, selected, r.value)
    ensures stored ==> forall v :: v in visits && !v.node.SpecialNode? && v.path in r.value ==>
      SameNode(v.path, r.value[v.path], v.node)
  {
    hide Lawful, UniquelyDecodable, Writable, Sound, ValidPlan, Prepared, UploadReady, ValidSnapshot, EntriesOf,
      Walked, Made, UploadCalls, ReadSnapshot, RestoreEntries, RestoredFrom, SameNode, Reading.Openable, IsIndexOf,
      PruneOrders, Pruned, ApplyAll, Chunker.ValidParams, Backup.PlanBytes, Backup.RawBytes, Untouched, IsRun, RunTo;
    var built := Scanner.BuildPlan(c, p, visits, k, e);
    if built.Err? {
      return false, Err(built.error);
    }
    var plan := built.value;
    ghost var before := provider.objects;
    var store := new Backup.RepositoryStore(c, packSize);
    var uploaded;
    ghost var upload;
    uploaded, upload := store.Upload(provider, plan, name, checksum);
    PreparedIsReady(c, universe, before, plan, upload.op.us);
    UploadStep(c, universe, packSize, before, upload);
    if uploaded.Err? {
      return false, Err(uploaded.error);
    }
    ghost var now := provider.objects;
    SoundPacks(c, universe, packSize, now);
    var maintenance := new Maintenance.RepositoryMaintenance(c, packSize);
    var pruned;
    ghost var prune;
    pruned, prune := maintenance.Prune(provider);
    PruneStep(c, universe, packSize, now, prune, name);
    var reader := new Reading.RepositoryReader(c, packSize);
    ghost var locations;
    r, locations := reader.Restore(provider.objects, name, Some(checksum), selected);
    ghost var left := provider.objects;
    StoredOpens(c, universe, packSize, p, before, visits, plan, upload.op.us, name, checksum, [prune], left);
    BackupRestores(c, universe, packSize, p, before, visits, plan, upload.op.us, name, checksum, [prune], locations,
        selected);
    return true, r;
  }

  lemma SoundPacks(c: Primitives, universe: iset<EncodedChunk>, packSize: int, objects: Objects)
    requires Sound(c, universe, packSize, objects)
    ensures forall d :: PackKey(d) in objects ==> objects[PackKey(d)].PackObject?
  {
  }

  lemma UploadStep(c: Primitives, universe: iset<EncodedChunk>, packSize: int, objects: Objects, step: Step)
    requires Lawful(c) && UniquelyDecodable(universe) && Sound(c, universe, packSize, objects)
    requires step.op.UploadSnapshot? && UploadReady(c, universe, objects, step.op.plan, step.op.us)
    requires step.cut <= |CallsOf(c, packSize, step.op)|
    ensures Sound(c, universe, packSize, ApplyAll(objects, Made(c, packSize, step)))
  {
    StepKeepsSound(c, universe, packSize, objects, step);
  }

  /** A prune is a run of one step, which leaves the snapshot alone. */
  lemma PruneStep(c: Primitives, universe: iset<EncodedChunk>, packSize: int, objects: Objects, step: Step,
                  name: string)
    requires Lawful(c) && UniquelyDecodable(universe) && Sound(c, universe, packSize, objects)
    requires step.op.PruneAll? && PruneOrders(objects, step.op.dead, step.op.orphans)
    requires step.cut <= |CallsOf(c, packSize, step.op)|
    ensures Sound(c, universe, packSize, ApplyAll(objects, Made(c, packSize, step)))
    ensures IsRun(c, universe, packSize, objects, [step]) && Untouched([step], name)
    ensures RunTo(c, universe, packSize, objects, [step]) == ApplyAll(objects, Made(c, packSize, step))
  {
    hide Sound, Lawful, UniquelyDecodable, Made, PruneOrders, ApplyAll;
    StepKeepsSound(c, universe, packSize, objects, step);
    assert [step][1..] == [];
  }

  /** The stored snapshot can be opened. */
  lemma StoredOpens(c: Primitives, universe: iset<EncodedChunk>, packSize: int, p: Chunker.Params,
                    before: Objects, visits: seq<Visit>, plan: Plan, us: seq<EncodedChunk>, name: string, checksum: nat,
                    later: seq<Step>, left: Objects)
    requires Lawful(c) && UniquelyDecodable(universe) && Chunker.ValidParams(p)
    requires Sound(c, universe, packSize, before) && Sound(c, universe, packSize, left)
    requires UploadReady(c, universe, before, plan, us)
    requires var stored := ApplyAll(before, UploadCalls(c, packSize, plan, us, name, checksum));
      && IsRun(c, universe, packSize, stored, later) && Untouched(later, name)
      && left == RunTo(c, universe, packSize, stored, later)
    ensures Reading.Openable(c, left, packSize, name, Some(checksum))
  {
    hide Sound, SnapshotIntact, ReadSnapshot, Lawful, UniquelyDecodable, UploadReady, UploadCalls, ApplyAll, IsRun,
      RunTo, Reading.IndexLoads, Untouched;
    UploadStores(c, packSize, before, plan, us, name, checksum);
    RunsLeaveSnapshot(c, universe, packSize, ApplyAll(before, UploadCalls(c, packSize, plan, us, name, checksum)),
        later, name);
    SoundSnapshot(c, universe, packSize, left, name);
    SnapshotFacts(c, left, name, plan.snapshot, checksum);
    Reading.SoundIndexLoads(c, universe, packSize, left);
  }

  lemma SoundSnapshot(c: Primitives, universe: iset<EncodedChunk>, packSize: int, objects: Objects, name: string)
    requires Sound(c, universe, packSize, objects) && SnapshotKey(name) in objects
    ensures SnapshotIntact(c, objects, name)
  {
  }
}
