/**
 Where the hypotheses of `Runs` are needed: packs whose bytes do not determine their
 chunks, index uploads that succeed while reporting failure, and prunes without the lock.
 */
module Hazards {
  import opened ByteStrings
  import opened Codec
  import opened Packs
  import opened Store
  import opened Calls
  import opened Upload
  import opened Links
  import opened Prune
  import opened Restore
  import opened Runs
  import Chunker

  // ------------------------------------------------------------ equal pack bytes

  ghost predicate IndexedElsewhere(objects: Objects, d: nat, id: ChunkId) {
    exists e :: e != d && id in SegmentChunks(objects, e)
  }

  /**
   What an upload could check before it replaces the index object of pack `d`: each live
   chunk listed there is one of the new chunks, or is listed under another pack as well.
   */
  ghost predicate LosesNoLiveChunk(objects: Objects, d: nat, g: seq<EncodedChunk>) {
    forall id :: id in SegmentChunks(objects, d) && Live(objects, id) ==>
      id in Ids(g) || IndexedElsewhere(objects, d, id)
  }

  /** What is indexed once the index object of `d` lists the chunks of `g`. */
  lemma ReplacedIndexLists(objects: Objects, d: nat, g: seq<EncodedChunk>, id: ChunkId)
    ensures Indexed(objects[IndexKey(d) := IndexObject(SegmentOf(g, d))], id)
            <==> id in Ids(g) || IndexedElsewhere(objects, d, id)
  {
    hide Layout;
    var after := objects[IndexKey(d) := IndexObject(SegmentOf(g, d))];
    LayoutKeys(g, d);
    assert forall e :: e != d ==> SegmentChunks(after, e) == SegmentChunks(objects, e);
    if id in Ids(g) {
      assert id in SegmentChunks(after, d);
    }
    if IndexedElsewhere(objects, d, id) {
      var e :| e != d && id in SegmentChunks(objects, e);
      assert id in SegmentChunks(after, e);
    }
    if Indexed(after, id) {
      var e :| id in SegmentChunks(after, e);
      assert e != d ==> id in SegmentChunks(objects, e);
    }
  }

  lemma ReplacedIndexKeepsPacks(c: Primitives, universe: iset<EncodedChunk>, packSize: int, objects: Objects,
                                d: nat, g: seq<EncodedChunk>)
    requires Sound(c, universe, packSize, objects)
    requires PackReady(c, universe, packSize, g) && DigestOf(c, g) == d
    requires PackKey(d) in objects && objects[PackKey(d)] == PackObject(PackBytes(g))
    ensures var after := objects[IndexKey(d) := IndexObject(SegmentOf(g, d))];
      forall e :: IndexKey(e) in after ==> PackIntact(c, universe, packSize, after, e)
  {
    var after := objects[IndexKey(d) := IndexObject(SegmentOf(g, d))];
    assert MadeFrom(c, universe, packSize, g, d, PackBytes(g), SegmentOf(g, d));
    forall e | IndexKey(e) in after ensures PackIntact(c, universe, packSize, after, e) {
      if e != d {
        assert PackIntact(c, universe, packSize, objects, e);
      }
    }
  }

  lemma SnapshotsSurvive(c: Primitives, objects: Objects, d: nat, g: seq<EncodedChunk>, name: string)
    requires SnapshotKey(name) in objects && SnapshotIntact(c, objects, name)
    requires LosesNoLiveChunk(objects, d, g)
    ensures SnapshotIntact(c, objects[IndexKey(d) := IndexObject(SegmentOf(g, d))], name)
  {
    var after := objects[IndexKey(d) := IndexObject(SegmentOf(g, d))];
    forall id | id in ChunksOf(after[SnapshotKey(name)].snapshot) ensures Indexed(after, id) {
      assert Live(objects, id);
      ReplacedIndexLists(objects, d, g, id);
      var e :| id in SegmentChunks(objects, e);
      assert e != d ==> IndexedElsewhere(objects, d, id);
    }
  }

  /** Replacing the index object of an existing pack is harmless exactly if no live chunk is lost. */
  lemma ReplacedIndexIsSoundIff(c: Primitives, universe: iset<EncodedChunk>, packSize: int, objects: Objects,
                                d: nat, g: seq<EncodedChunk>)
    requires Sound(c, universe, packSize, objects)
    requires PackReady(c, universe, packSize, g) && DigestOf(c, g) == d
    requires PackKey(d) in objects && objects[PackKey(d)] == PackObject(PackBytes(g))
    ensures Sound(c, universe, packSize, objects[IndexKey(d) := IndexObject(SegmentOf(g, d))])
            <==> LosesNoLiveChunk(objects, d, g)
  {
    hide MadeFrom, Layout, PackIntact, PackReady, Indexed, IndexedElsewhere;
    var after := objects[IndexKey(d) := IndexObject(SegmentOf(g, d))];
    ReplacedIndexKeepsPacks(c, universe, packSize, objects, d, g);
    if LosesNoLiveChunk(objects, d, g) {
      forall name | SnapshotKey(name) in after ensures SnapshotIntact(c, after, name) {
        SnapshotsSurvive(c, objects, d, g, name);
      }
    }
    if Sound(c, universe, packSize, after) {
      forall id | id in SegmentChunks(objects, d) && Live(objects, id)
        ensures id in Ids(g) || IndexedElsewhere(objects, d, id)
      {
        var name :| SnapshotKey(name) in objects && objects[SnapshotKey(name)].SnapshotObject?
                    && id in ChunksOf(objects[SnapshotKey(name)].snapshot);
        assert SnapshotIntact(c, after, name);
        ReplacedIndexLists(objects, d, g, id);
      }
    }
  }

  // ------------------------------------------------------------ "none" compression

  /** An injective numbering of byte strings. */
  function Number(b: Bytes): nat {
    if b == [] then 0 else 1 + b[0] as nat + 256 * Number(b[1..])
  }

  lemma DigitAndRest(digit: nat, rest: nat)
    requires digit < 256
    ensures (digit + 256 * rest) % 256 == digit && (digit + 256 * rest) / 256 == rest
  {
  }

  lemma NumberParts(b: Bytes)
    requires b != []
    ensures Number(b) > 0 && (Number(b) - 1) % 256 == b[0] as nat && (Number(b) - 1) / 256 == Number(b[1..])
  {
    DigitAndRest(b[0] as nat, Number(b[1..]));
  }

  lemma NumberOfNothing()
    ensures Number([]) == 0
  {
  }

  lemma {:induction false} NumberIsInjective(a: Bytes, b: Bytes)
    requires Number(a) == Number(b)
    ensures a == b
  {
    hide Number;
    NumberOfNothing();
    if a != [] { NumberParts(a); }
    if b != [] { NumberParts(b); }
    if a != [] && b != [] {
      NumberIsInjective(a[1..], b[1..]);
      assert a == [a[0]] + a[1..] && b == [b[0]] + b[1..];
    }
  }

  function Tags(k: Compression, e: bool): Bytes {
    [match k case Uncompressed => 0 case Gzip => 1 case Zstd => 2, if e then 1 else 0]
  }

  /** Perfect digests, and chunks stored as they are. */
  function PlainPrimitives(): Primitives {
    Primitives(
      (r: Bytes, k: Compression, e: bool) => Number(Tags(k, e) + r),
      (b: Bytes) => Number(b),
      (r: Bytes, k: Compression, e: bool, id: ChunkId, n: nat) => r,
      (x: Bytes, k: Compression, e: bool, id: ChunkId) => Some(x),
      true)
  }

  lemma PlainIsLawful()
    ensures Lawful(PlainPrimitives())
  {
    var c := PlainPrimitives();
    forall r, k, e, r', k', e' | c.chunkDigest(r, k, e) == c.chunkDigest(r', k', e')
      ensures r == r' && k == k' && e == e'
    {
      NumberIsInjective(Tags(k, e) + r, Tags(k', e') + r');
      assert (Tags(k, e) + r)[..2] == Tags(k, e) && (Tags(k', e') + r')[..2] == Tags(k', e');
      assert (Tags(k, e) + r)[2..] == r && (Tags(k', e') + r')[2..] == r';
    }
    forall b, b' | c.packDigest(b) == c.packDigest(b') ensures b == b' {
      NumberIsInjective(b, b');
    }
  }

  function PlainChunk(raw: Bytes): EncodedChunk {
    EncodedChunk(IdOf(PlainPrimitives(), raw, Uncompressed, false), raw, Uncompressed, false, raw)
  }

  const WHOLE: Bytes := [120, 121]   // "xy"
  const LEFT: Bytes := [120]         // "x"
  const RIGHT: Bytes := [121]        // "y"

  function FirstPlan(): Plan {
    var id := PlainChunk(WHOLE).id;
    Plan(WHOLE, map[id := PlanChunk(0, 2)], [id],
         Snapshot(FORMAT_VERSION, Uncompressed, false, [Entry("a", File, 2, "", [id])]))
  }

  function SecondPlan(): Plan {
    var l, r := PlainChunk(LEFT).id, PlainChunk(RIGHT).id;
    Plan(WHOLE, map[l := PlanChunk(0, 1), r := PlanChunk(1, 1)], [l, r],
         Snapshot(FORMAT_VERSION, Uncompressed, false, [Entry("b", File, 1, "", [l]), Entry("c", File, 1, "", [r])]))
  }

  lemma DifferentIds()
    ensures PlainChunk(WHOLE).id != PlainChunk(LEFT).id
    ensures PlainChunk(WHOLE).id != PlainChunk(RIGHT).id
    ensures PlainChunk(LEFT).id != PlainChunk(RIGHT).id
  {
    PlainIsLawful();
    var c := PlainPrimitives();
    assert |WHOLE| == 2 && |LEFT| == 1 && |RIGHT| == 1 && LEFT[0] != RIGHT[0];
    assert c.chunkDigest(WHOLE, Uncompressed, false) != c.chunkDigest(LEFT, Uncompressed, false);
    assert c.chunkDigest(WHOLE, Uncompressed, false) != c.chunkDigest(RIGHT, Uncompressed, false);
    assert c.chunkDigest(LEFT, Uncompressed, false) != c.chunkDigest(RIGHT, Uncompressed, false);
  }

  function PlainUniverse(): iset<EncodedChunk> {
    iset{PlainChunk(WHOLE), PlainChunk(LEFT), PlainChunk(RIGHT)}
  }

  lemma FirstPlanIsValid()
    ensures ValidPlan(PlainPrimitives(), FirstPlan())
  {
    hide PlainPrimitives;
    assert Raw(FirstPlan(), PlainChunk(WHOLE).id) == WHOLE;
    OneLetterName("a");
  }

  lemma SecondPlanIsValid()
    ensures ValidPlan(PlainPrimitives(), SecondPlan())
  {
    hide PlainPrimitives, ValidSnapshot;
    var plan, l, r := SecondPlan(), PlainChunk(LEFT).id, PlainChunk(RIGHT).id;
    DifferentIds();
    SecondSnapshotIsValid();
    assert Raw(plan, l) == LEFT && Raw(plan, r) == RIGHT;
    assert plan.snapshot.entries[0].chunks == [l] && plan.snapshot.entries[1].chunks == [r];
    assert ChunksOf(plan.snapshot) <= {l, r};
  }

  lemma SecondSnapshotIsValid()
    ensures ValidSnapshot(SecondPlan().snapshot)
  {
    hide PlainPrimitives, ValidPath;
    OneLetterName("b");
    OneLetterName("c");
  }

  lemma OneLetterName(p: string)
    requires |p| == 1 && p[0] !in ['.', '/', '\\']
    ensures ValidPath(p)
  {
    SplitHead(p, "");
  }

  /** The walks the two plans come from: one file "xy", and two files "x" and "y". */
  function FirstWalk(): seq<Visit> {
    [Visit("a", FileNode(WHOLE))]
  }

  function SecondWalk(): seq<Visit> {
    [Visit("b", FileNode(LEFT)), Visit("c", FileNode(RIGHT))]
  }

  lemma ShortFileIsOneChunk(p: Chunker.Params, content: Bytes)
    requires Chunker.ValidParams(p) && 0 < |content| <= 2
    ensures Chunker.Chunks(p, content) == [content]
  {
    var cut := Chunker.Cut(p, content);
    assert cut == |content|;
    assert content[cut..] == [] && content[..cut] == content;
  }

  lemma PlansAreScanned(p: Chunker.Params)
    requires Chunker.ValidParams(p)
    ensures Scanned(PlainPrimitives(), p, FirstWalk(), FirstPlan().snapshot)
    ensures Scanned(PlainPrimitives(), p, SecondWalk(), SecondPlan().snapshot)
  {
    hide PlainPrimitives, IdOf, Chunker.Chunks, Chunker.ValidParams;
    var c := PlainPrimitives();
    ShortFileIsOneChunk(p, WHOLE);
    ShortFileIsOneChunk(p, LEFT);
    ShortFileIsOneChunk(p, RIGHT);
    EntriesSnoc(c, p, FirstWalk(), Uncompressed, false);
    EntriesSnoc(c, p, SecondWalk(), Uncompressed, false);
    EntriesSnoc(c, p, SecondWalk()[..1], Uncompressed, false);
    assert FirstWalk()[..0] == [] && SecondWalk()[..1][..0] == [];
    assert ChunkIds(c, [WHOLE], Uncompressed, false) == [PlainChunk(WHOLE).id];
    assert ChunkIds(c, [LEFT], Uncompressed, false) == [PlainChunk(LEFT).id];
    assert ChunkIds(c, [RIGHT], Uncompressed, false) == [PlainChunk(RIGHT).id];
  }

  /** The provider calls of both uploads, spelled out. */
  lemma PlainCalls(name: string)
    ensures
      var c, w := PlainPrimitives(), PlainChunk(WHOLE);
      var l, r := PlainChunk(LEFT), PlainChunk(RIGHT);
      var d := Number(WHOLE);
      && UploadCalls(c, PACK_SIZE, FirstPlan(), [w], name, 1)
         == [Put(PackKey(d), PackObject(WHOLE)), Put(IndexKey(d), IndexObject(SegmentOf([w], d))),
             Put(SnapshotKey(name), SnapshotObject(FirstPlan().snapshot, 1))]
      && UploadCalls(c, PACK_SIZE, SecondPlan(), [l, r], name, 1)
         == [Put(PackKey(d), PackObject(WHOLE)), Put(IndexKey(d), IndexObject(SegmentOf([l, r], d))),
             Put(SnapshotKey(name), SnapshotObject(SecondPlan().snapshot, 1))]
  {
    hide Layout, IdOf;
    var c, w := PlainPrimitives(), PlainChunk(WHOLE);
    var l, r := PlainChunk(LEFT), PlainChunk(RIGHT);
    SinglePack(w);
    SinglePack(l);
    PackBytesSnoc([l], r);
    assert [l] + [r] == [l, r];
    assert PackBytes([w]) == WHOLE && PackBytes([l]) == LEFT && PackBytes([l, r]) == WHOLE;
    assert Grouped([w], PACK_SIZE) == [[w]];
    assert [l, r][..1] == [l];
    assert Grouped([l], PACK_SIZE) == [[l]];
    assert Grouped([l, r], PACK_SIZE) == [[l, r]];
    assert PackCalls(c, []) == [];
  }

  const PACK_SIZE: int := 0x200_0000   // 32 << 20

  function FirstBackup(): Step {
    Step(UploadSnapshot(FirstPlan(), [PlainChunk(WHOLE)], "first", 1), 3, Stopped)
  }

  function SecondBackup(): Step {
    Step(UploadSnapshot(SecondPlan(), [PlainChunk(LEFT), PlainChunk(RIGHT)], "second", 1), 3, Stopped)
  }

  function AfterFirst(): Objects {
    var d := Number(WHOLE);
    map[PackKey(d) := PackObject(WHOLE), IndexKey(d) := IndexObject(SegmentOf([PlainChunk(WHOLE)], d)),
        SnapshotKey("first") := SnapshotObject(FirstPlan().snapshot, 1)]
  }

  function AfterSecond(): Objects {
    var d := Number(WHOLE);
    AfterFirst()[IndexKey(d) := IndexObject(SegmentOf([PlainChunk(LEFT), PlainChunk(RIGHT)], d))]
      [SnapshotKey("second") := SnapshotObject(SecondPlan().snapshot, 1)]
  }

  lemma ApplyThree(objects: Objects, calls: seq<Call>)
    requires |calls| == 3
    ensures ApplyAll(objects, calls) == Apply(Apply(Apply(objects, calls[0]), calls[1]), calls[2])
  {
    assert calls == [calls[0], calls[1]] + [calls[2]];
    ApplySnoc(objects, [calls[0], calls[1]], calls[2]);
    assert [calls[0], calls[1]] == [calls[0]] + [calls[1]];
    ApplySnoc(objects, [calls[0]], calls[1]);
    assert [calls[0]] == [] + [calls[0]];
    ApplySnoc(objects, [], calls[0]);
  }

  lemma RunTwo(c: Primitives, universe: iset<EncodedChunk>, packSize: int, objects: Objects, first: Step, mid: Objects,
               second: Step)
    requires Enabled(c, universe, packSize, objects, first)
    requires mid == ApplyAll(objects, Made(c, packSize, first))
    requires Enabled(c, universe, packSize, mid, second)
    ensures IsRun(c, universe, packSize, objects, [first, second])
    ensures RunTo(c, universe, packSize, objects, [first, second]) == ApplyAll(mid, Made(c, packSize, second))
  {
    assert [first, second][1..] == [second];
    assert IsRun(c, universe, packSize, mid, [second]);
    assert [second][1..] == [];
    assert RunTo(c, universe, packSize, mid, [second]) == ApplyAll(mid, Made(c, packSize, second));
  }

  lemma FirstBackupEffect()
    ensures |CallsOf(PlainPrimitives(), PACK_SIZE, FirstBackup().op)| == 3
    ensures ApplyAll(map[], Made(PlainPrimitives(), PACK_SIZE, FirstBackup())) == AfterFirst()
  {
    hide PlainPrimitives, IdOf, Layout, ApplyAll, PackBytes;
    PlainCalls("first");
    var calls := CallsOf(PlainPrimitives(), PACK_SIZE, FirstBackup().op);
    assert calls[..3] == calls;
    ApplyThree(map[], calls);
  }

  lemma SecondBackupEffect()
    ensures |CallsOf(PlainPrimitives(), PACK_SIZE, SecondBackup().op)| == 3
    ensures ApplyAll(AfterFirst(), Made(PlainPrimitives(), PACK_SIZE, SecondBackup())) == AfterSecond()
  {
    hide PlainPrimitives, IdOf, Layout, ApplyAll, PackBytes;
    PlainCalls("second");
    var calls := CallsOf(PlainPrimitives(), PACK_SIZE, SecondBackup().op);
    assert calls[..3] == calls;
    ApplyThree(AfterFirst(), calls);
    assert Apply(AfterFirst(), calls[0]) == AfterFirst();
  }

  lemma WhatIsIndexed()
    ensures forall id :: Indexed(AfterFirst(), id) <==> id == PlainChunk(WHOLE).id
    ensures forall id :: Indexed(AfterSecond(), id) <==> id in {PlainChunk(LEFT).id, PlainChunk(RIGHT).id}
  {
    hide PlainPrimitives, IdOf, Layout, Number;
    var d := Number(WHOLE);
    LayoutKeys([PlainChunk(WHOLE)], d);
    LayoutKeys([PlainChunk(LEFT), PlainChunk(RIGHT)], d);
    assert Ids([PlainChunk(WHOLE)]) == {PlainChunk(WHOLE).id};
    assert Ids([PlainChunk(LEFT), PlainChunk(RIGHT)]) == {PlainChunk(LEFT).id, PlainChunk(RIGHT).id};
    assert forall e :: e != d ==> SegmentChunks(AfterFirst(), e) == map[] && SegmentChunks(AfterSecond(), e) == map[];
    assert SegmentChunks(AfterFirst(), d).Keys == {PlainChunk(WHOLE).id};
    assert SegmentChunks(AfterSecond(), d).Keys == {PlainChunk(LEFT).id, PlainChunk(RIGHT).id};
  }

  /**
   Two honest backups under compression "none", of a file "xy" and of two files "x" and
   "y": the second replaces the first one's index object, and the first snapshot, still
   stored, has lost its chunk.
   */
  lemma EqualPackBytesLoseChunks(p: Chunker.Params)
    requires Chunker.ValidParams(p)
    ensures Lawful(PlainPrimitives()) && !UniquelyDecodable(PlainUniverse())
    ensures Scanned(PlainPrimitives(), p, FirstWalk(), FirstPlan().snapshot)
    ensures Scanned(PlainPrimitives(), p, SecondWalk(), SecondPlan().snapshot)
    ensures IsRun(PlainPrimitives(), PlainUniverse(), PACK_SIZE, map[], [FirstBackup(), SecondBackup()])
    ensures var after := RunTo(PlainPrimitives(), PlainUniverse(), PACK_SIZE, map[], [FirstBackup(), SecondBackup()]);
      && SnapshotKey("first") in after && after[SnapshotKey("first")] == SnapshotObject(FirstPlan().snapshot, 1)
      && PlainChunk(WHOLE).id in ChunksOf(FirstPlan().snapshot)
      && !Indexed(after, PlainChunk(WHOLE).id)
  {
    hide PlainPrimitives, IdOf, Missing, EncodingsOf, ValidPlan, ApplyAll, Scanned, Chunker.ValidParams;
    PlansAreScanned(p);
    PlainIsLawful();
    NotDecodable();
    DifferentIds();
    WhatIsIndexed();
    FirstBackupEffect();
    SecondBackupEffect();
    ReadyFirst();
    ReadySecond(AfterFirst());
    RunTwo(PlainPrimitives(), PlainUniverse(), PACK_SIZE, map[], FirstBackup(), AfterFirst(), SecondBackup());
    assert FirstPlan().snapshot.entries[0].chunks[0] == PlainChunk(WHOLE).id;
  }

  lemma NotDecodable()
    ensures !UniquelyDecodable(PlainUniverse())
  {
    var w, l, r := PlainChunk(WHOLE), PlainChunk(LEFT), PlainChunk(RIGHT);
    SinglePack(w);
    SinglePack(l);
    PackBytesSnoc([l], r);
    assert [l] + [r] == [l, r];
    assert PackBytes([w]) == PackBytes([l, r]);
    assert |[w]| != |[l, r]|;
    assert AllIn([w], PlainUniverse()) && AllIn([l, r], PlainUniverse());
  }

  lemma PlainEncodes(plan: Plan, raw: Bytes)
    requires InSpool(plan, PlainChunk(raw).id) && Raw(plan, PlainChunk(raw).id) == raw
    requires plan.snapshot.compression == Uncompressed && !plan.snapshot.encrypted
    ensures EncodingOf(PlainPrimitives(), plan, PlainChunk(raw).id, PlainChunk(raw))
  {
    var c, u := PlainPrimitives(), PlainChunk(raw);
    assert u == EncodedChunk(u.id, raw, Uncompressed, false, c.encode(raw, Uncompressed, false, u.id, 0));
  }

  lemma MissingOne(objects: Objects, id: ChunkId)
    requires !Indexed(objects, id)
    ensures Missing(objects, [id]) == [id]
  {
    assert [id][..0] == [];
  }

  lemma PlanFacts()
    ensures FirstPlan().order == [PlainChunk(WHOLE).id]
    ensures SecondPlan().order == [PlainChunk(LEFT).id, PlainChunk(RIGHT).id]
    ensures InSpool(FirstPlan(), PlainChunk(WHOLE).id) && Raw(FirstPlan(), PlainChunk(WHOLE).id) == WHOLE
    ensures InSpool(SecondPlan(), PlainChunk(LEFT).id) && Raw(SecondPlan(), PlainChunk(LEFT).id) == LEFT
    ensures InSpool(SecondPlan(), PlainChunk(RIGHT).id) && Raw(SecondPlan(), PlainChunk(RIGHT).id) == RIGHT
    ensures FirstPlan().snapshot.compression == SecondPlan().snapshot.compression == Uncompressed
    ensures !FirstPlan().snapshot.encrypted && !SecondPlan().snapshot.encrypted
  {
    DifferentIds();
    hide PlainPrimitives, IdOf;
  }

  lemma ReadyFirst()
    ensures UploadReady(PlainPrimitives(), PlainUniverse(), map[], FirstPlan(), [PlainChunk(WHOLE)])
  {
    PlanFacts();
    FirstPlanIsValid();
    hide PlainPrimitives, IdOf, FirstPlan, SecondPlan, ValidPlan;
    var w := PlainChunk(WHOLE);
    assert !Indexed(map[], w.id);
    MissingOne(map[], w.id);
    PlainEncodes(FirstPlan(), WHOLE);
  }

  lemma ReadySecond(objects: Objects)
    requires !Indexed(objects, PlainChunk(LEFT).id) && !Indexed(objects, PlainChunk(RIGHT).id)
    ensures UploadReady(PlainPrimitives(), PlainUniverse(), objects, SecondPlan(),
        [PlainChunk(LEFT), PlainChunk(RIGHT)])
  {
    PlanFacts();
    SecondPlanIsValid();
    hide PlainPrimitives, IdOf, FirstPlan, SecondPlan, ValidPlan, Indexed;
    var l, r := PlainChunk(LEFT), PlainChunk(RIGHT);
    MissingOne(objects, l.id);
    assert [l.id, r.id][..1] == [l.id];
    assert Missing(objects, [l.id, r.id]) == [l.id, r.id];
    PlainEncodes(SecondPlan(), LEFT);
    PlainEncodes(SecondPlan(), RIGHT);
  }

  // ------------------------------------------------------------ failures that succeeded

  /**
   A refused index upload is followed by the removal of its pack. That is safe exactly
   when no index object is stored under the pack's digest, whatever the provider reported.
   */
  lemma CleanUpIsSoundIff(c: Primitives, universe: iset<EncodedChunk>, packSize: int, seen: Objects, d: nat)
    requires Sound(c, universe, packSize, seen)
    ensures Sound(c, universe, packSize, Apply(seen, Delete(PackKey(d)))) <==> IndexKey(d) !in seen
  {
    if IndexKey(d) in seen {
      var after := Apply(seen, Delete(PackKey(d)));
      assert IndexKey(d) in after && PackKey(d) !in after;
      assert !PackIntact(c, universe, packSize, after, d);
    } else {
      SafeCallKeepsSound(c, universe, packSize, seen, Delete(PackKey(d)));
    }
  }

  /** Removing the index object first is safe in either case, as long as no snapshot needs its chunks. */
  lemma IndexFirstIsSound(c: Primitives, universe: iset<EncodedChunk>, packSize: int, seen: Objects, d: nat)
    requires Sound(c, universe, packSize, seen)
    requires IndexKey(d) in seen ==> Dead(seen, d)
    ensures Sound(c, universe, packSize, Apply(Apply(seen, Delete(IndexKey(d))), Delete(PackKey(d))))
  {
    var mid := Apply(seen, Delete(IndexKey(d)));
    if IndexKey(d) in seen {
      SafeCallKeepsSound(c, universe, packSize, seen, Delete(IndexKey(d)));
    } else {
      assert mid == seen;
    }
    SafeCallKeepsSound(c, universe, packSize, mid, Delete(PackKey(d)));
  }

  /** The index object of the first backup without its pack. */
  function IndexAlone(): Objects {
    map[IndexKey(Number(WHOLE)) := IndexObject(SegmentOf([PlainChunk(WHOLE)], Number(WHOLE)))]
  }

  lemma ApplyOne(objects: Objects, call: Call)
    ensures ApplyAll(objects, [call]) == Apply(objects, call)
  {
    assert [call][..0] == [];
    assert ApplyAll(objects, []) == objects;
  }

  lemma OneSegment(objects: Objects, w: EncodedChunk, d: nat)
    requires forall e :: IndexKey(e) in objects <==> e == d
    requires objects[IndexKey(d)] == IndexObject(SegmentOf([w], d))
    ensures forall id :: Indexed(objects, id) <==> id == w.id
    ensures FirstHolder(objects, d, w.id) && SegmentChunks(objects, d)[w.id].pack == d
  {
    hide Layout;
    LayoutKeys([w], d);
    LayoutRegion([w], d, 0);
    assert Ids([w]) == {w.id};
    assert SegmentChunks(objects, d).Keys == {w.id};
    assert forall e :: e != d ==> SegmentChunks(objects, e) == map[];
  }

  /** A retry of the first backup when its chunk is indexed: the snapshot is all there is to store. */
  lemma RetryStoresSnapshotOnly(objects: Objects, name: string)
    requires Indexed(objects, PlainChunk(WHOLE).id)
    ensures UploadReady(PlainPrimitives(), PlainUniverse(), objects, FirstPlan(), [])
    ensures UploadCalls(PlainPrimitives(), PACK_SIZE, FirstPlan(), [], name, 1)
            == [Put(SnapshotKey(name), SnapshotObject(FirstPlan().snapshot, 1))]
  {
    PlanFacts();
    FirstPlanIsValid();
    hide PlainPrimitives, IdOf, FirstPlan, ValidPlan;
    var id := PlainChunk(WHOLE).id;
    assert [id][..0] == [];
    assert Missing(objects, [id]) == [];
    assert Grouped([], PACK_SIZE) == [];
    assert PackCalls(PlainPrimitives(), []) == [];
  }

  /** A chunk that cannot be read keeps the first snapshot from being restored. */
  lemma FirstSnapshotFails(objects: Objects, locations: map<ChunkId, Location>)
    requires ReadChunk(PlainPrimitives(), objects, locations, PlainChunk(WHOLE).id).Err?
    ensures RestoreEntries(PlainPrimitives(), objects, locations, FirstPlan().snapshot.entries, [])
            == Err(ReadChunk(PlainPrimitives(), objects, locations, PlainChunk(WHOLE).id).error)
  {
    hide PlainPrimitives, ReadChunk;
    var c, id := PlainPrimitives(), PlainChunk(WHOLE).id;
    var e := Entry("a", File, 2, "", [id]);
    var tree: Tree := map[];
    assert [id][..0] == [] && [e][..0] == [];
    var failure := ReadChunk(c, objects, locations, id).error;
    assert FileBytes(c, objects, locations, []) == Ok([]);
    assert FileBytes(c, objects, locations, [id]) == Err(failure);
    assert EntryNode(c, objects, locations, e) == Err(failure);
    assert !Obstructed(tree, e.path) && !Occupied(tree, e) && '\0' !in "a";
    assert RestoreEntry(c, objects, locations, tree, e) == Err(failure);
    assert RestoreEntries(c, objects, locations, [], []) == Ok(tree);
    assert FirstPlan().snapshot.entries == [e];
  }

  /**
   The first backup, whose index upload is stored but reported as failed, and the retry:
   the clean-up leaves an index object without a pack, so the retry finds nothing missing
   and completes, and its snapshot cannot be restored.
   */
  lemma RetryAfterCleanUpIsUnreadable(locations: map<ChunkId, Location>)
    requires IsIndexOf(IndexAlone()[SnapshotKey("first") := SnapshotObject(FirstPlan().snapshot, 1)], locations)
    ensures var c, u := PlainPrimitives(), PlainUniverse();
      var first := UploadCalls(c, PACK_SIZE, FirstPlan(), [PlainChunk(WHOLE)], "first", 1);
      var retry := UploadCalls(c, PACK_SIZE, FirstPlan(), [], "first", 1);
      && ApplyAll(map[], first[..2] + [Delete(PackKey(Number(WHOLE)))]) == IndexAlone()
      && UploadReady(c, u, IndexAlone(), FirstPlan(), [])
      && ApplyAll(IndexAlone(), retry) == IndexAlone()[SnapshotKey("first") := SnapshotObject(FirstPlan().snapshot, 1)]
      && RestoreEntries(c, ApplyAll(IndexAlone(), retry), locations, FirstPlan().snapshot.entries, [])
         == Err(PackUnreadable(PlainChunk(WHOLE).id))
  {
    hide PlainPrimitives, IdOf, Layout, ApplyAll, PackBytes, UploadReady, Number, RestoreEntries, Indexed, FirstHolder;
    var c, d, w := PlainPrimitives(), Number(WHOLE), PlainChunk(WHOLE);
    var stored := Put(SnapshotKey("first"), SnapshotObject(FirstPlan().snapshot, 1));
    PlainCalls("first");
    ApplyThree(map[], UploadCalls(c, PACK_SIZE, FirstPlan(), [w], "first", 1)[..2] + [Delete(PackKey(d))]);
    OneSegment(IndexAlone(), w, d);
    RetryStoresSnapshotOnly(IndexAlone(), "first");
    ApplyOne(IndexAlone(), stored);
    var after := Apply(IndexAlone(), stored);
    OneSegment(after, w, d);
    assert ReadChunk(c, after, locations, w.id) == Err(PackUnreadable(w.id));
    FirstSnapshotFails(after, locations);
  }

  // ------------------------------------------------------------ prunes without the lock

  /** The chunk sits in an index object that a snapshot already keeps alive. */
  ghost predicate Anchored(objects: Objects, id: ChunkId) {
    exists d :: id in SegmentChunks(objects, d) && !Dead(objects, d)
  }

  predicate StoresPacks(calls: seq<Call>) {
    forall i :: 0 <= i < |calls| ==> PutsPack(calls[i]) || PutsIndex(calls[i])
  }

  lemma {:induction false} PackCallsStorePacks(c: Primitives, groups: seq<seq<EncodedChunk>>)
    ensures StoresPacks(PackCalls(c, groups))
  {
    if groups != [] {
      PackCallsStorePacks(c, groups[..|groups| - 1]);
    }
  }

  /** Safe pack uploads add to the index without touching what was there. */
  lemma {:induction false} SafePutsOnlyAdd(c: Primitives, universe: iset<EncodedChunk>, packSize: int,
                                           objects: Objects, calls: seq<Call>)
    requires SafeCalls(c, universe, packSize, objects, calls) && StoresPacks(calls)
    ensures forall k: Key :: !k.PackKey? && k in objects ==>
      k in ApplyAll(objects, calls) && ApplyAll(objects, calls)[k] == objects[k]
    ensures forall k: Key :: k.SnapshotKey? && k in ApplyAll(objects, calls) ==> k in objects
  {
    if calls != [] {
      SafePutsOnlyAdd(c, universe, packSize, objects, calls[..|calls| - 1]);
    }
  }

  /** In a sound repository a live chunk is indexed, so freshly stored chunks are not live. */
  lemma LiveIsIndexed(c: Primitives, universe: iset<EncodedChunk>, packSize: int, objects: Objects, id: ChunkId)
    requires Sound(c, universe, packSize, objects) && Live(objects, id)
    ensures Indexed(objects, id)
  {
    var name :| SnapshotKey(name) in objects && objects[SnapshotKey(name)].SnapshotObject?
                && id in ChunksOf(objects[SnapshotKey(name)].snapshot);
    assert SnapshotIntact(c, objects, name);
  }

  lemma {:induction false} NewSegmentsAreNew(c: Primitives, objects: Objects, groups: seq<seq<EncodedChunk>>, d: nat)
    requires IndexKey(d) !in objects
    ensures SegmentChunks(ApplyAll(objects, PackCalls(c, groups)), d).Keys <= Ids(Flatten(groups))
  {
    if groups != [] {
      var init, g := groups[..|groups| - 1], groups[|groups| - 1];
      NewSegmentsAreNew(c, objects, init, d);
      var e := DigestOf(c, g);
      var putPack, putIndex := Put(PackKey(e), PackObject(PackBytes(g))),
          Put(IndexKey(e), IndexObject(SegmentOf(g, e)));
      assert PackCalls(c, groups) == PackCalls(c, init) + [putPack] + [putIndex];
      ApplySnoc(objects, PackCalls(c, init), putPack);
      ApplySnoc(objects, PackCalls(c, init) + [putPack], putIndex);
      LayoutKeys(g, e);
    }
  }

  lemma PrunedIndexesAnchored(objects: Objects, id: ChunkId)
    ensures Indexed(Pruned(objects), id) <==> Anchored(objects, id)
  {
    var left := Pruned(objects);
    if Indexed(left, id) {
      var d :| id in SegmentChunks(left, d);
      assert IndexKey(d) in left;
      assert id in SegmentChunks(objects, d) && !Dead(objects, d);
    }
    if Anchored(objects, id) {
      var d :| id in SegmentChunks(objects, d) && !Dead(objects, d);
      assert IndexKey(d) in left;
      assert id in SegmentChunks(left, d);
    }
  }

  ghost predicate SameSnapshots(objects: Objects, after: Objects) {
    forall name :: (SnapshotKey(name) in objects <==> SnapshotKey(name) in after)
      && (SnapshotKey(name) in objects ==> after[SnapshotKey(name)] == objects[SnapshotKey(name)])
  }

  lemma SameSnapshotsSameLive(objects: Objects, after: Objects, id: ChunkId)
    requires SameSnapshots(objects, after) && Live(objects, id)
    ensures Live(after, id)
  {
    var name :| SnapshotKey(name) in objects && objects[SnapshotKey(name)].SnapshotObject?
                && id in ChunksOf(objects[SnapshotKey(name)].snapshot);
    assert SnapshotKey(name) in after;
  }

  lemma DeadStaysDead(objects: Objects, after: Objects, d: nat)
    requires SameSnapshots(objects, after)
    requires IndexKey(d) in objects && IndexKey(d) in after && after[IndexKey(d)] == objects[IndexKey(d)]
    ensures Dead(objects, d) <==> Dead(after, d)
  {
    forall id ensures Live(objects, id) <==> Live(after, id) {
      if Live(objects, id) {
        SameSnapshotsSameLive(objects, after, id);
      }
      if Live(after, id) {
        SameSnapshotsSameLive(after, objects, id);
      }
    }
  }

  lemma PacksAnchorNothingNew(c: Primitives, universe: iset<EncodedChunk>, packSize: int, objects: Objects,
                              groups: seq<seq<EncodedChunk>>, id: ChunkId)
    requires Sound(c, universe, packSize, objects) && SafeCalls(c, universe, packSize, objects, PackCalls(c, groups))
    requires forall u :: u in Flatten(groups) ==> !Indexed(objects, u.id)
    ensures Anchored(ApplyAll(objects, PackCalls(c, groups)), id) <==> Anchored(objects, id)
  {
    var mid := ApplyAll(objects, PackCalls(c, groups));
    PackCallsStorePacks(c, groups);
    SafePutsOnlyAdd(c, universe, packSize, objects, PackCalls(c, groups));
    assert SameSnapshots(objects, mid);
    if Anchored(objects, id) {
      var d :| id in SegmentChunks(objects, d) && !Dead(objects, d);
      DeadStaysDead(objects, mid, d);
      assert id in SegmentChunks(mid, d);
    }
    if Anchored(mid, id) {
      var d :| id in SegmentChunks(mid, d) && !Dead(mid, d);
      if IndexKey(d) in objects {
        DeadStaysDead(objects, mid, d);
        assert id in SegmentChunks(objects, d);
      } else {
        NewSegmentsAreNew(c, objects, groups, d);
        FreshSegmentIsDead(c, universe, packSize, objects, mid, groups, d);
      }
    }
  }

  lemma FreshSegmentIsDead(c: Primitives, universe: iset<EncodedChunk>, packSize: int, objects: Objects, mid: Objects,
                           groups: seq<seq<EncodedChunk>>, d: nat)
    requires Sound(c, universe, packSize, objects) && SameSnapshots(objects, mid)
    requires forall u :: u in Flatten(groups) ==> !Indexed(objects, u.id)
    requires IndexKey(d) in mid && SegmentChunks(mid, d).Keys <= Ids(Flatten(groups))
    ensures Dead(mid, d)
  {
    forall i | i in SegmentChunks(mid, d) ensures !Live(mid, i) {
      if Live(mid, i) {
        SameSnapshotsSameLive(mid, objects, i);
        LiveIsIndexed(c, universe, packSize, objects, i);
      }
    }
  }

  /** A prune between the packs of an upload and its snapshot, with no snapshot deleted before. */
  lemma PruneBetweenIff(c: Primitives, universe: iset<EncodedChunk>, packSize: int, objects: Objects,
                        plan: Plan, us: seq<EncodedChunk>, name: string, checksum: nat)
    requires Lawful(c) && UniquelyDecodable(universe) && Sound(c, universe, packSize, objects)
    requires UploadReady(c, universe, objects, plan, us)
    ensures var mid := ApplyAll(objects, PackCalls(c, Grouped(us, packSize)));
      var after := Apply(Pruned(mid), Put(SnapshotKey(name), SnapshotObject(plan.snapshot, checksum)));
      SnapshotIntact(c, after, name) <==> forall id :: id in ChunksOf(plan.snapshot) ==> Anchored(objects, id)
  {
    var groups := Grouped(us, packSize);
    var mid := ApplyAll(objects, PackCalls(c, groups));
    UploadPacksAreSafe(c, universe, packSize, objects, plan, us, name, checksum);
    forall id ensures Indexed(Pruned(mid), id) <==> Anchored(objects, id) {
      PrunedIndexesAnchored(mid, id);
      PacksAnchorNothingNew(c, universe, packSize, objects, groups, id);
    }
    StoredSnapshotIntactIff(c, Pruned(mid), plan.snapshot, name, checksum);
  }

  /** The store after these snapshots have been deleted. */
  function WithoutSnapshots(objects: Objects, gone: set<string>): Objects {
    objects - set name | name in gone :: SnapshotKey(name)
  }

  lemma {:induction false} PackCallsCommute(c: Primitives, objects: Objects, gone: set<string>,
                                            groups: seq<seq<EncodedChunk>>)
    ensures ApplyAll(WithoutSnapshots(objects, gone), PackCalls(c, groups))
            == WithoutSnapshots(ApplyAll(objects, PackCalls(c, groups)), gone)
  {
    if groups != [] {
      var init, g := groups[..|groups| - 1], groups[|groups| - 1];
      PackCallsCommute(c, objects, gone, init);
      var d := DigestOf(c, g);
      var putPack, putIndex := Put(PackKey(d), PackObject(PackBytes(g))),
          Put(IndexKey(d), IndexObject(SegmentOf(g, d)));
      assert PackCalls(c, groups) == PackCalls(c, init) + [putPack] + [putIndex];
      PutsCommute(objects, gone, PackCalls(c, init), putPack, putIndex);
    }
  }

  lemma PutsCommute(objects: Objects, gone: set<string>, calls: seq<Call>, first: Call, second: Call)
    requires first.Put? && !first.key.SnapshotKey? && second.Put? && !second.key.SnapshotKey?
    requires ApplyAll(WithoutSnapshots(objects, gone), calls) == WithoutSnapshots(ApplyAll(objects, calls), gone)
    ensures ApplyAll(WithoutSnapshots(objects, gone), calls + [first] + [second])
            == WithoutSnapshots(ApplyAll(objects, calls + [first] + [second]), gone)
  {
    hide ApplyAll;
    ApplySnoc(objects, calls, first);
    ApplySnoc(objects, calls + [first], second);
    ApplySnoc(WithoutSnapshots(objects, gone), calls, first);
    ApplySnoc(WithoutSnapshots(objects, gone), calls + [first], second);
  }

  lemma {:induction false} SameMissing(objects: Objects, after: Objects, order: seq<ChunkId>)
    requires forall id :: Indexed(objects, id) <==> Indexed(after, id)
    ensures Missing(objects, order) == Missing(after, order)
  {
    hide Indexed;
    if order != [] {
      SameMissing(objects, after, order[..|order| - 1]);
    }
  }

  /** Deleting snapshots changes no pack and no index. */
  lemma DeletedSnapshots(c: Primitives, universe: iset<EncodedChunk>, packSize: int, objects: Objects,
                         gone: set<string>,
                         plan: Plan, us: seq<EncodedChunk>)
    requires Sound(c, universe, packSize, objects) && UploadReady(c, universe, objects, plan, us)
    ensures Sound(c, universe, packSize, WithoutSnapshots(objects, gone))
    ensures UploadReady(c, universe, WithoutSnapshots(objects, gone), plan, us)
  {
    hide MadeFrom, ReadSnapshot, ValidPlan, EncodingsOf, Missing;
    var left := WithoutSnapshots(objects, gone);
    assert forall d :: SegmentChunks(left, d) == SegmentChunks(objects, d);
    SameSegmentsSameIndex(objects, left);
    SameMissing(objects, left, plan.order);
    hide Indexed;
    forall d | IndexKey(d) in left ensures PackIntact(c, universe, packSize, left, d) {
      assert PackIntact(c, universe, packSize, objects, d);
    }
    forall name | SnapshotKey(name) in left ensures SnapshotIntact(c, left, name) {
      assert SnapshotIntact(c, objects, name);
      SameSnapshotReads(c, objects, left, name);
    }
  }

  lemma SameSnapshotReads(c: Primitives, objects: Objects, left: Objects, name: string)
    requires SnapshotKey(name) in objects && SnapshotKey(name) in left
        && left[SnapshotKey(name)] == objects[SnapshotKey(name)]
    ensures ReadSnapshot(c, left, name, None) == ReadSnapshot(c, objects, name, None)
  {
  }

  /**
   A call without the lock deletes the snapshots `gone` and then prunes, while an upload is
   between reading the index and storing its snapshot. The prune takes every pack the
   upload has just stored. The snapshot then stored is readable exactly if it needs nothing
   but chunks from indexes that the snapshots left over keep alive.
   */
  lemma UnlockedPruneIsHarmlessIff(c: Primitives, universe: iset<EncodedChunk>, packSize: int, objects: Objects,
                                   gone: set<string>, plan: Plan, us: seq<EncodedChunk>, name: string, checksum: nat)
    requires Lawful(c) && UniquelyDecodable(universe) && Sound(c, universe, packSize, objects)
    requires UploadReady(c, universe, objects, plan, us)
    ensures var mid := WithoutSnapshots(ApplyAll(objects, PackCalls(c, Grouped(us, packSize))), gone);
      var after := Apply(Pruned(mid), Put(SnapshotKey(name), SnapshotObject(plan.snapshot, checksum)));
      SnapshotIntact(c, after, name)
      <==> forall id :: id in ChunksOf(plan.snapshot) ==> Anchored(WithoutSnapshots(objects, gone), id)
  {
    hide *;
    PackCallsCommute(c, objects, gone, Grouped(us, packSize));
    DeletedSnapshots(c, universe, packSize, objects, gone, plan, us);
    PruneBetweenIff(c, universe, packSize, WithoutSnapshots(objects, gone), plan, us, name, checksum);
  }

  lemma UploadPacksAreSafe(c: Primitives, universe: iset<EncodedChunk>, packSize: int, objects: Objects,
                           plan: Plan, us: seq<EncodedChunk>, name: string, checksum: nat)
    requires Lawful(c) && UniquelyDecodable(universe) && Sound(c, universe, packSize, objects)
    requires UploadReady(c, universe, objects, plan, us)
    ensures SafeCalls(c, universe, packSize, objects, PackCalls(c, Grouped(us, packSize)))
    ensures forall u :: u in Flatten(Grouped(us, packSize)) ==> !Indexed(objects, u.id)
  {
    UploadIsSafe(c, universe, packSize, objects, plan, us, name, checksum);
    var calls := UploadCalls(c, packSize, plan, us, name, checksum);
    assert calls[..|calls| - 1] == PackCalls(c, Grouped(us, packSize));
    ReadyChunks(c, universe, objects, plan, us);
    GroupedIsGreedy(us, packSize);
    forall u | u in us ensures !Indexed(objects, u.id) {
      assert u.id in Ids(us);
    }
  }

  lemma StoredSnapshotIntactIff(c: Primitives, objects: Objects, snapshot: Snapshot, name: string, checksum: nat)
    requires ValidSnapshot(snapshot) && (snapshot.encrypted ==> c.hasKey)
    ensures SnapshotIntact(c, Apply(objects, Put(SnapshotKey(name), SnapshotObject(snapshot, checksum))), name)
            <==> forall id :: id in ChunksOf(snapshot) ==> Indexed(objects, id)
  {
    SameSegmentsSameIndex(objects, Apply(objects, Put(SnapshotKey(name), SnapshotObject(snapshot, checksum))));
  }

  /** The first backup without its snapshot, which is all dead. */
  function PacksOnly(): Objects {
    var d := Number(WHOLE);
    map[PackKey(d) := PackObject(WHOLE), IndexKey(d) := IndexObject(SegmentOf([PlainChunk(WHOLE)], d))]
  }

  /**
   The failure: a second backup of the same file reads the index and finds nothing missing;
   the first backup's snapshot is deleted and what it alone kept is pruned, without the lock;
   the second backup completes. Its snapshot is stored and names a chunk that no index lists.
   */
  lemma UnlockedPruneLosesBackup(locations: map<ChunkId, Location>)
    requires IsIndexOf(map[SnapshotKey("again") := SnapshotObject(FirstPlan().snapshot, 1)], locations)
    ensures var c, d := PlainPrimitives(), Number(WHOLE);
      var upload := UploadCalls(c, PACK_SIZE, FirstPlan(), [], "again", 1);
      var unlocked := [Delete(SnapshotKey("first"))] + PruneCalls([d], []);
      var after := ApplyAll(AfterFirst(), unlocked + upload);
      && UploadReady(c, PlainUniverse(), AfterFirst(), FirstPlan(), [])
      && PruneOrders(ApplyAll(AfterFirst(), unlocked[..1]), [d], [])
      && after == map[SnapshotKey("again") := SnapshotObject(FirstPlan().snapshot, 1)]
      && RestoreEntries(c, after, locations, FirstPlan().snapshot.entries, [])
         == Err(ChunkNotIndexed(PlainChunk(WHOLE).id))
  {
    hide PlainPrimitives, IdOf, Layout, ApplyAll, PackBytes, UploadReady, Number, RestoreEntries, PruneOrders, Indexed;
    var c, d, id := PlainPrimitives(), Number(WHOLE), PlainChunk(WHOLE).id;
    WhatIsIndexed();
    RetryStoresSnapshotOnly(AfterFirst(), "again");
    PacksOnlyDead();
    var first, gone := [Delete(SnapshotKey("first"))], [Delete(IndexKey(d)), Delete(PackKey(d))];
    var upload := UploadCalls(c, PACK_SIZE, FirstPlan(), [], "again", 1);
    assert PruneCalls([d], []) == gone by {
      assert [d][..0] == [] && DeadCalls([]) == [];
    }
    assert (first + gone)[..1] == first;
    ApplyOne(AfterFirst(), first[0]);
    assert ApplyAll(AfterFirst(), first) == PacksOnly();
    ApplyTwo(PacksOnly(), gone);
    ApplyOne(map[], upload[0]);
    ApplyAppend(AfterFirst(), first, gone);
    ApplyAppend(AfterFirst(), first + gone, upload);
    var after: Objects := map[SnapshotKey("again") := SnapshotObject(FirstPlan().snapshot, 1)];
    NothingIndexed(after, locations, id);
    assert ReadChunk(c, after, locations, id) == Err(ChunkNotIndexed(id));
    FirstSnapshotFails(after, locations);
  }

  lemma ApplyTwo(objects: Objects, calls: seq<Call>)
    requires |calls| == 2
    ensures ApplyAll(objects, calls) == Apply(Apply(objects, calls[0]), calls[1])
  {
    assert calls == [calls[0]] + [calls[1]];
    ApplySnoc(objects, [calls[0]], calls[1]);
    ApplyOne(objects, calls[0]);
  }

  lemma PacksOnlyDead()
    ensures PruneOrders(PacksOnly(), [Number(WHOLE)], [])
  {
    hide Layout, Number;
  }

  lemma NothingIndexed(objects: Objects, locations: map<ChunkId, Location>, id: ChunkId)
    requires IsIndexOf(objects, locations) && forall e :: IndexKey(e) !in objects
    ensures id !in locations
  {
  }
}
