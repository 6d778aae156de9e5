/** Provider calls, one at a time, and which of them keep the repository sound. */
module Calls {
  import opened ByteStrings
  import opened Codec
  import opened Packs
  import opened Store

  datatype Call = Put(key: Key, obj: Object) | Delete(key: Key)

  function Apply(objects: Objects, call: Call): Objects {
    match call
    case Put(key, obj) => objects[key := obj]
    case Delete(key) => objects - {key}
  }

  function ApplyAll(objects: Objects, calls: seq<Call>): Objects {
    if calls == [] then objects
    else Apply(ApplyAll(objects, calls[..|calls| - 1]), calls[|calls| - 1])
  }

  lemma ApplySnoc(objects: Objects, calls: seq<Call>, call: Call)
    ensures ApplyAll(objects, calls + [call]) == Apply(ApplyAll(objects, calls), call)
  {
    assert (calls + [call])[..|calls|] == calls;
  }

  lemma {:induction false} ApplyAppend(objects: Objects, first: seq<Call>, then_: seq<Call>)
    ensures ApplyAll(objects, first + then_) == ApplyAll(ApplyAll(objects, first), then_)
  {
    if then_ == [] {
      assert first + then_ == first;
    } else {
      var init, last := then_[..|then_| - 1], then_[|then_| - 1];
      ApplyAppend(objects, first, init);
      assert first + then_ == (first + init) + [last];
      ApplySnoc(objects, first + init, last);
    }
  }

  /** An index object none of whose chunks is referenced by a snapshot. */
  ghost predicate Dead(objects: Objects, d: nat) {
    IndexKey(d) in objects && forall id :: id in SegmentChunks(objects, d) ==> !Live(objects, id)
  }

  /** The discipline the repository's own operations keep. */
  ghost predicate SafeCall(c: Primitives, universe: iset<EncodedChunk>, packSize: int, objects: Objects, call: Call) {
    match call
    case Put(PackKey(d), obj) => obj.PackObject? && IndexKey(d) !in objects
    case Put(IndexKey(d), obj) =>
      && IndexKey(d) !in objects && obj.IndexObject?
      && PackKey(d) in objects && objects[PackKey(d)].PackObject?
      && exists us :: MadeFrom(c, universe, packSize, us, d, objects[PackKey(d)].bytes, obj.segment)
    case Put(SnapshotKey(name), obj) =>
      && obj.SnapshotObject? && ValidSnapshot(obj.snapshot) && (obj.snapshot.encrypted ==> c.hasKey)
      && forall id :: id in ChunksOf(obj.snapshot) ==> Indexed(objects, id)
    case Delete(PackKey(d)) => IndexKey(d) !in objects
    case Delete(IndexKey(d)) => Dead(objects, d)
    case Delete(SnapshotKey(name)) => true
  }

  lemma SameSegmentsSameIndex(objects: Objects, objects': Objects)
    requires forall d :: SegmentChunks(objects, d) == SegmentChunks(objects', d)
    ensures forall id :: Indexed(objects, id) <==> Indexed(objects', id)
  {
    forall id ensures Indexed(objects, id) <==> Indexed(objects', id) {
      if Indexed(objects, id) {
        var d :| id in SegmentChunks(objects, d);
        assert id in SegmentChunks(objects', d);
      }
      if Indexed(objects', id) {
        var d :| id in SegmentChunks(objects', d);
        assert id in SegmentChunks(objects, d);
      }
    }
  }

  lemma NeededIsLive(objects: Objects, name: string, id: ChunkId)
    requires SnapshotKey(name) in objects && objects[SnapshotKey(name)].SnapshotObject?
    requires id in ChunksOf(objects[SnapshotKey(name)].snapshot)
    ensures Live(objects, id)
  {
  }

  lemma SafeCallKeepsPacks(c: Primitives, universe: iset<EncodedChunk>, packSize: int, objects: Objects, call: Call,
                           d: nat)
    requires Sound(c, universe, packSize, objects) && SafeCall(c, universe, packSize, objects, call)
    requires IndexKey(d) in Apply(objects, call)
    ensures PackIntact(c, universe, packSize, Apply(objects, call), d)
  {
    hide SnapshotIntact, Dead, MadeFrom;
    var after := Apply(objects, call);
    if !call.Put? || call.key != IndexKey(d) {
      assert PackIntact(c, universe, packSize, objects, d);
      assert after[IndexKey(d)] == objects[IndexKey(d)];
    }
    assert PackKey(d) in after && after[PackKey(d)] == objects[PackKey(d)];
    var us: seq<EncodedChunk> :| MadeFrom(c, universe, packSize, us, d, objects[PackKey(d)].bytes,
        after[IndexKey(d)].segment);
    assert MadeFrom(c, universe, packSize, us, d, after[PackKey(d)].bytes, after[IndexKey(d)].segment);
  }

  lemma SafeCallKeepsSnapshots(c: Primitives, universe: iset<EncodedChunk>, packSize: int, objects: Objects,
                               call: Call, name: string)
    requires Sound(c, universe, packSize, objects) && SafeCall(c, universe, packSize, objects, call)
    requires SnapshotKey(name) in Apply(objects, call)
    ensures SnapshotIntact(c, Apply(objects, call), name)
  {
    hide MadeFrom, PackIntact;
    var after := Apply(objects, call);
    if !call.Put? || call.key != SnapshotKey(name) {
      assert SnapshotIntact(c, objects, name);
    }
    forall id | id in ChunksOf(after[SnapshotKey(name)].snapshot) ensures Indexed(after, id) {
      assert Indexed(objects, id);
      var d :| id in SegmentChunks(objects, d);
      if call == Delete(IndexKey(d)) {
        NeededIsLive(objects, name, id);
      }
      assert id in SegmentChunks(after, d);
    }
  }

  /** One safe call leaves a sound repository sound. */
  lemma SafeCallKeepsSound(c: Primitives, universe: iset<EncodedChunk>, packSize: int, objects: Objects, call: Call)
    requires Sound(c, universe, packSize, objects) && SafeCall(c, universe, packSize, objects, call)
    ensures Sound(c, universe, packSize, Apply(objects, call))
  {
    hide PackIntact, SnapshotIntact, Dead;
    forall d | IndexKey(d) in Apply(objects, call) ensures PackIntact(c, universe, packSize, Apply(objects, call), d) {
      SafeCallKeepsPacks(c, universe, packSize, objects, call, d);
    }
    forall name | SnapshotKey(name) in Apply(objects, call) ensures SnapshotIntact(c, Apply(objects, call), name) {
      SafeCallKeepsSnapshots(c, universe, packSize, objects, call, name);
    }
  }

  ghost predicate SafeCalls(c: Primitives, universe: iset<EncodedChunk>, packSize: int, objects: Objects,
                            calls: seq<Call>)
  {
    calls == [] ||
    (SafeCalls(c, universe, packSize, objects, calls[..|calls| - 1]) &&
     SafeCall(c, universe, packSize, ApplyAll(objects, calls[..|calls| - 1]), calls[|calls| - 1]))
  }

  lemma SafeSnoc(c: Primitives, universe: iset<EncodedChunk>, packSize: int, objects: Objects, calls: seq<Call>,
                 call: Call)
    requires SafeCalls(c, universe, packSize, objects, calls)
    requires SafeCall(c, universe, packSize, ApplyAll(objects, calls), call)
    ensures SafeCalls(c, universe, packSize, objects, calls + [call])
    ensures ApplyAll(objects, calls + [call]) == Apply(ApplyAll(objects, calls), call)
  {
    assert (calls + [call])[..|calls|] == calls;
  }

  /** A crash may fall after any number of calls: the repository is sound there. */
  lemma {:induction false} SafeCallsKeepSound(c: Primitives, universe: iset<EncodedChunk>, packSize: int,
                                             objects: Objects, calls: seq<Call>, cut: nat)
    requires Sound(c, universe, packSize, objects) && SafeCalls(c, universe, packSize, objects, calls)
    requires cut <= |calls|
    ensures Sound(c, universe, packSize, ApplyAll(objects, calls[..cut]))
    ensures SafeCalls(c, universe, packSize, objects, calls[..cut])
  {
    if calls != [] {
      var init := calls[..|calls| - 1];
      if cut < |calls| {
        SafeCallsKeepSound(c, universe, packSize, objects, init, cut);
        assert init[..cut] == calls[..cut];
      } else {
        SafeCallsKeepSound(c, universe, packSize, objects, init, |init|);
        assert init[..|init|] == init && calls[..cut] == calls;
        SafeCallKeepsSound(c, universe, packSize, ApplyAll(objects, init), calls[|calls| - 1]);
      }
    }
  }
}
