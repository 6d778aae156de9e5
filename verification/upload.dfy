/** A backup plan, and the provider calls that store it. */
module Upload {
  import opened ByteStrings
  import opened Codec
  import opened Packs
  import opened Store
  import opened Calls

  datatype PlanChunk = PlanChunk(offset: nat, size: nat)

  /** The deduplicated chunks of one scan, back to back in a spool file, and its snapshot. */
  datatype Plan = Plan(spool: Bytes, chunks: map<ChunkId, PlanChunk>, order: seq<ChunkId>, snapshot: Snapshot)

  predicate InSpool(plan: Plan, id: ChunkId) {
    id in plan.chunks && plan.chunks[id].offset + plan.chunks[id].size <= |plan.spool|
  }

  function Raw(plan: Plan, id: ChunkId): Bytes
    requires InSpool(plan, id)
  {
    plan.spool[plan.chunks[id].offset..plan.chunks[id].offset + plan.chunks[id].size]
  }

  /** What a successful scan guarantees about its plan. */
  ghost predicate ValidPlan(c: Primitives, plan: Plan) {
    && (forall i, j :: 0 <= i < j < |plan.order| ==> plan.order[i] != plan.order[j])
    && (forall id :: id in plan.chunks <==> id in plan.order)
    && (forall id :: id in plan.chunks ==>
          && InSpool(plan, id) && 0 < |Raw(plan, id)| <= CHUNK_MAX
          && id == IdOf(c, Raw(plan, id), plan.snapshot.compression, plan.snapshot.encrypted))
    && (forall id :: id in ChunksOf(plan.snapshot) ==> id in plan.chunks)
    && ValidSnapshot(plan.snapshot) && (plan.snapshot.encrypted ==> c.hasKey)
  }

  /** The chunks of the plan the index does not list yet, in plan order. */
  ghost function Missing(objects: Objects, order: seq<ChunkId>): seq<ChunkId> {
    if order == [] then []
    else
      var last := order[|order| - 1];
      Missing(objects, order[..|order| - 1]) + if Indexed(objects, last) then [] else [last]
  }

  lemma {:induction false} MissingExactly(objects: Objects, order: seq<ChunkId>)
    ensures forall id :: id in Missing(objects, order) <==> id in order && !Indexed(objects, id)
    ensures (forall i, j :: 0 <= i < j < |order| ==> order[i] != order[j]) ==>
              forall i, j :: 0 <= i < j < |Missing(objects, order)|
                  ==> Missing(objects, order)[i] != Missing(objects, order)[j]
  {
    if order != [] {
      MissingExactly(objects, order[..|order| - 1]);
      assert order == order[..|order| - 1] + [order[|order| - 1]];
    }
  }

  ghost predicate EncodingOf(c: Primitives, plan: Plan, id: ChunkId, u: EncodedChunk)
    requires InSpool(plan, id)
  {
    var s := plan.snapshot;
    exists nonce ::
      u == EncodedChunk(id, Raw(plan, id), s.compression, s.encrypted,
                        c.encode(Raw(plan, id), s.compression, s.encrypted, id, nonce))
  }

  /** `us` are the missing chunks of the plan, each encoded with some random nonce. */
  ghost predicate EncodingsOf(c: Primitives, plan: Plan, missing: seq<ChunkId>, us: seq<EncodedChunk>) {
    && |us| == |missing|
    && forall i :: 0 <= i < |us| ==> InSpool(plan, missing[i]) && EncodingOf(c, plan, missing[i], us[i])
  }

  function SegmentOf(g: seq<EncodedChunk>, d: nat): Segment {
    Segment(FORMAT_VERSION, d, Layout(g, d))
  }

  function DigestOf(c: Primitives, g: seq<EncodedChunk>): nat {
    c.packDigest(PackBytes(g))
  }

  /** Every pack is stored before its index object. */
  function PackCalls(c: Primitives, groups: seq<seq<EncodedChunk>>): seq<Call> {
    if groups == [] then []
    else
      var g := groups[|groups| - 1];
      var d := DigestOf(c, g);
      PackCalls(c, groups[..|groups| - 1])
      + [Put(PackKey(d), PackObject(PackBytes(g))), Put(IndexKey(d), IndexObject(SegmentOf(g, d)))]
  }

  /** The whole upload: packs with their indexes, then the snapshot. */
  function UploadCalls(c: Primitives, packSize: int, plan: Plan, us: seq<EncodedChunk>, name: string, checksum: nat)
    : seq<Call>
  {
    PackCalls(c, Grouped(us, packSize)) + [Put(SnapshotKey(name), SnapshotObject(plan.snapshot, checksum))]
  }

  /** What an upload starts from: its plan, and encodings of just what is missing. */
  ghost predicate Prepared(c: Primitives, objects: Objects, plan: Plan, us: seq<EncodedChunk>) {
    ValidPlan(c, plan) && EncodingsOf(c, plan, Missing(objects, plan.order), us)
  }

  ghost predicate UploadReady(c: Primitives, universe: iset<EncodedChunk>, objects: Objects, plan: Plan,
                              us: seq<EncodedChunk>)
  {
    Prepared(c, objects, plan, us) && AllIn(us, universe)
  }

  /** An upload's chunks are well encoded, new to the index, and all different. */
  lemma ReadyChunks(c: Primitives, universe: iset<EncodedChunk>, objects: Objects, plan: Plan, us: seq<EncodedChunk>)
    requires Lawful(c) && UploadReady(c, universe, objects, plan, us)
    ensures DistinctIds(us) && forall i :: 0 <= i < |us| ==> WellEncoded(c, us[i])
    ensures forall id :: id in Ids(us) <==> id in plan.chunks && !Indexed(objects, id)
  {
    var missing := Missing(objects, plan.order);
    MissingExactly(objects, plan.order);
    forall i | 0 <= i < |us| ensures us[i].id == missing[i] && WellEncoded(c, us[i]) {
      assert missing[i] in plan.chunks;
      assert EncodingOf(c, plan, missing[i], us[i]);
      var s := plan.snapshot;
      var nonce :| us[i] == EncodedChunk(missing[i], Raw(plan, missing[i]), s.compression, s.encrypted,
        c.encode(Raw(plan, missing[i]), s.compression, s.encrypted, missing[i], nonce));
    }
    forall id | id in missing ensures id in Ids(us) {
      var i :| 0 <= i < |missing| && missing[i] == id;
      assert us[i].id == id;
    }
  }

  /**
   Under unique decodability a pack key is only ever met again by the same chunks: if the
   key of this pack has an index object already, both objects are the ones an upload of
   the pack would store.
   */
  lemma KnownPackKey(c: Primitives, universe: iset<EncodedChunk>, packSize: int, objects: Objects, g: seq<EncodedChunk>)
    requires Lawful(c) && UniquelyDecodable(universe) && Sound(c, universe, packSize, objects)
    requires AllIn(g, universe) && IndexKey(DigestOf(c, g)) in objects
    ensures var d := DigestOf(c, g);
      && PackKey(d) in objects && objects[PackKey(d)] == PackObject(PackBytes(g))
      && objects[IndexKey(d)] == IndexObject(SegmentOf(g, d))
    ensures forall i :: 0 <= i < |g| ==> Indexed(objects, g[i].id)
  {
    var d := DigestOf(c, g);
    assert PackIntact(c, universe, packSize, objects, d);
    var us: seq<EncodedChunk> :| MadeFrom(c, universe, packSize, us, d, objects[PackKey(d)].bytes,
        objects[IndexKey(d)].segment);
    assert us == g;
    LayoutKeys(us, d);
    forall i | 0 <= i < |g| ensures Indexed(objects, g[i].id) {
      assert g[i].id in SegmentChunks(objects, d);
    }
  }

  ghost predicate PacksReady(c: Primitives, universe: iset<EncodedChunk>, packSize: int, objects: Objects,
                             groups: seq<seq<EncodedChunk>>)
  {
    var us := Flatten(groups);
    && DistinctIds(us) && AllIn(us, universe)
    && (forall i :: 0 <= i < |us| ==> WellEncoded(c, us[i]) && !Indexed(objects, us[i].id))
    && (forall i :: 0 <= i < |groups| ==> groups[i] != [] && |PackBytes(groups[i])| <= PackLimit(packSize))
  }

  ghost predicate PackReady(c: Primitives, universe: iset<EncodedChunk>, packSize: int, g: seq<EncodedChunk>) {
    && g != [] && DistinctIds(g) && AllIn(g, universe)
    && (forall i :: 0 <= i < |g| ==> WellEncoded(c, g[i]))
    && |PackBytes(g)| <= PackLimit(packSize)
  }

  lemma ReadySplits(c: Primitives, universe: iset<EncodedChunk>, packSize: int, objects: Objects,
                    groups: seq<seq<EncodedChunk>>)
    requires groups != [] && PacksReady(c, universe, packSize, objects, groups)
    ensures var init, g := groups[..|groups| - 1], groups[|groups| - 1];
      && PacksReady(c, universe, packSize, objects, init)
      && PackReady(c, universe, packSize, g)
      && !Indexed(objects, g[0].id) && g[0].id !in Ids(Flatten(init))
      && Ids(Flatten(groups)) == Ids(Flatten(init)) + Ids(g)
  {
    var init, g := groups[..|groups| - 1], groups[|groups| - 1];
    var us, before := Flatten(groups), Flatten(init);
    assert us == before + g;
    assert forall i :: 0 <= i < |before| ==> us[i] == before[i];
    assert forall i :: 0 <= i < |g| ==> us[|before| + i] == g[i];
  }

  /** Storing packs: every call is safe, and exactly their chunks become indexed. */
  lemma {:induction false} PackCallsAreSafe(c: Primitives, universe: iset<EncodedChunk>, packSize: int,
                                            objects: Objects,
                                           groups: seq<seq<EncodedChunk>>)
    requires Lawful(c) && UniquelyDecodable(universe) && Sound(c, universe, packSize, objects)
    requires PacksReady(c, universe, packSize, objects, groups)
    ensures SafeCalls(c, universe, packSize, objects, PackCalls(c, groups))
    ensures forall id :: Indexed(ApplyAll(objects, PackCalls(c, groups)), id)
                         <==> Indexed(objects, id) || id in Ids(Flatten(groups))
  {
    if groups == [] {
      assert Ids(Flatten(groups)) == {};
    } else {
      var init, g := groups[..|groups| - 1], groups[|groups| - 1];
      ReadySplits(c, universe, packSize, objects, groups);
      PackCallsAreSafe(c, universe, packSize, objects, init);
      AddPack(c, universe, packSize, objects, PackCalls(c, init), g);
    }
  }

  lemma AddPack(c: Primitives, universe: iset<EncodedChunk>, packSize: int, objects: Objects,
                calls: seq<Call>, g: seq<EncodedChunk>)
    requires Lawful(c) && UniquelyDecodable(universe) && Sound(c, universe, packSize, objects)
    requires SafeCalls(c, universe, packSize, objects, calls) && PackReady(c, universe, packSize, g)
    requires !Indexed(ApplyAll(objects, calls), g[0].id)
    ensures var d := DigestOf(c, g);
      var all := calls + [Put(PackKey(d), PackObject(PackBytes(g))), Put(IndexKey(d), IndexObject(SegmentOf(g, d)))];
      && SafeCalls(c, universe, packSize, objects, all)
      && forall id :: Indexed(ApplyAll(objects, all), id) <==> Indexed(ApplyAll(objects, calls), id) || id in Ids(g)
  {
    SafeCallsKeepSound(c, universe, packSize, objects, calls, |calls|);
    assert calls[..|calls|] == calls;
    if IndexKey(DigestOf(c, g)) in ApplyAll(objects, calls) {
      KnownPackKey(c, universe, packSize, ApplyAll(objects, calls), g);
    }
    StorePackIsSafe(c, universe, packSize, objects, calls, g);
  }

  /** One more pack with its index, at the end of safe calls. */
  lemma StorePackIsSafe(c: Primitives, universe: iset<EncodedChunk>, packSize: int, objects: Objects,
                        calls: seq<Call>, g: seq<EncodedChunk>)
    requires SafeCalls(c, universe, packSize, objects, calls)
    requires PackReady(c, universe, packSize, g)
    requires IndexKey(DigestOf(c, g)) !in ApplyAll(objects, calls)
    ensures var d := DigestOf(c, g);
      var all := calls + [Put(PackKey(d), PackObject(PackBytes(g))), Put(IndexKey(d), IndexObject(SegmentOf(g, d)))];
      && SafeCalls(c, universe, packSize, objects, all)
      && forall id :: Indexed(ApplyAll(objects, all), id) <==> Indexed(ApplyAll(objects, calls), id) || id in Ids(g)
  {
    hide Layout, Join, PackBytes, SafeCalls, ApplyAll;
    var d := DigestOf(c, g);
    var o1 := ApplyAll(objects, calls);
    var putPack, putIndex := Put(PackKey(d), PackObject(PackBytes(g))), Put(IndexKey(d), IndexObject(SegmentOf(g, d)));
    SafeSnoc(c, universe, packSize, objects, calls, putPack);
    assert MadeFrom(c, universe, packSize, g, d, PackBytes(g), SegmentOf(g, d));
    SafeSnoc(c, universe, packSize, objects, calls + [putPack], putIndex);
    assert calls + [putPack, putIndex] == calls + [putPack] + [putIndex];
    var o2 := ApplyAll(objects, calls + [putPack, putIndex]);
    LayoutKeys(g, d);
    forall id ensures Indexed(o2, id) <==> Indexed(o1, id) || id in Ids(g) {
      if Indexed(o1, id) {
        var e :| id in SegmentChunks(o1, e);
        assert id in SegmentChunks(o2, e);
      }
      if id in Ids(g) {
        assert id in SegmentChunks(o2, d);
      }
      if Indexed(o2, id) {
        var e :| id in SegmentChunks(o2, e);
        assert e != d ==> id in SegmentChunks(o1, e);
      }
    }
  }

  /**
   A whole upload under the lock: every prefix of its calls is safe, and in the end all
   chunks of its snapshot are indexed and nothing indexed before has gone.
   */
  lemma UploadIsSafe(c: Primitives, universe: iset<EncodedChunk>, packSize: int, objects: Objects,
                     plan: Plan, us: seq<EncodedChunk>, name: string, checksum: nat)
    requires Lawful(c) && UniquelyDecodable(universe) && Sound(c, universe, packSize, objects)
    requires UploadReady(c, universe, objects, plan, us)
    ensures SafeCalls(c, universe, packSize, objects, UploadCalls(c, packSize, plan, us, name, checksum))
    ensures forall id :: Indexed(ApplyAll(objects, PackCalls(c, Grouped(us, packSize))), id)
                         <==> Indexed(objects, id) || id in plan.chunks
  {
    hide Layout, Grouped, Flatten, PackCalls, SafeCalls, ApplyAll, PackIntact, SnapshotIntact, EncodingsOf, Join;
    ReadyChunks(c, universe, objects, plan, us);
    GroupedIsGreedy(us, packSize);
    var groups := Grouped(us, packSize);
    forall i | 0 <= i < |groups| ensures groups[i] != [] && |PackBytes(groups[i])| <= PackLimit(packSize) {
      assert Fits(groups[i], packSize);
      if |groups[i]| == 1 {
        FlattenContains(groups, i);
        assert groups[i][0] in us;
        assert groups[i] == [groups[i][0]];
        SinglePack(groups[i][0]);
      }
    }
    assert PacksReady(c, universe, packSize, objects, groups) by {
      forall i | 0 <= i < |us| ensures !Indexed(objects, us[i].id) {
        assert us[i].id in Ids(us);
      }
    }
    PackCallsAreSafe(c, universe, packSize, objects, groups);
    var stored := ApplyAll(objects, PackCalls(c, groups));
    SafeSnoc(c, universe, packSize, objects, PackCalls(c, groups),
        Put(SnapshotKey(name), SnapshotObject(plan.snapshot, checksum)));
  }

  lemma {:induction false} FlattenContains(groups: seq<seq<EncodedChunk>>, i: nat)
    requires i < |groups|
    ensures forall u :: u in groups[i] ==> u in Flatten(groups)
  {
    if i < |groups| - 1 {
      FlattenContains(groups[..|groups| - 1], i);
    }
  }
}
