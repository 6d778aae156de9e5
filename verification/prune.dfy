/** Garbage collection: what a prune deletes, in which order, and what is left. */
module Prune {
  import opened ByteStrings
  import opened Listings
  import opened Codec
  import opened Packs
  import opened Store
  import opened Calls

  /** What a prune keeps: snapshots, indexes with a live chunk, and the packs of those. */
  ghost predicate KeptKey(objects: Objects, key: Key) {
    match key
    case SnapshotKey(_) => true
    case IndexKey(d) => !Dead(objects, d)
    case PackKey(d) => IndexKey(d) in objects && !Dead(objects, d)
  }

  ghost function Pruned(objects: Objects): Objects {
    map k | k in objects && KeptKey(objects, k) :: objects[k]
  }

  ghost predicate Orphan(objects: Objects, d: nat) {
    PackKey(d) in objects && IndexKey(d) !in objects
  }

  /** The listings a prune walks: its dead indexes, then the packs without an index. */
  ghost predicate PruneOrders(objects: Objects, dead: seq<nat>, orphans: seq<nat>) {
    && Distinct(dead) && (forall d :: d in dead <==> Dead(objects, d))
    && Distinct(orphans) && (forall d :: d in orphans <==> Orphan(objects, d))
  }

  function DeadCalls(dead: seq<nat>): seq<Call> {
    if dead == [] then []
    else
      var d := dead[|dead| - 1];
      DeadCalls(dead[..|dead| - 1]) + [Delete(IndexKey(d)), Delete(PackKey(d))]
  }

  function OrphanCalls(orphans: seq<nat>): seq<Call> {
    seq(|orphans|, i requires 0 <= i < |orphans| => Delete(PackKey(orphans[i])))
  }

  function PruneCalls(dead: seq<nat>, orphans: seq<nat>): seq<Call> {
    DeadCalls(dead) + OrphanCalls(orphans)
  }

  // ------------------------------------------------------------ crash safety

  /** Deleting an index only once and only when dead; deleting a pack only without its index. */
  ghost predicate Orderly(objects: Objects, earlier: seq<Call>, call: Call) {
    match call
    case Delete(IndexKey(d)) => Dead(objects, d) && call !in earlier
    case Delete(PackKey(d)) => IndexKey(d) !in objects || Delete(IndexKey(d)) in earlier
    case _ => false
  }

  ghost predicate OrderlyDeletes(objects: Objects, calls: seq<Call>) {
    calls == [] ||
    (OrderlyDeletes(objects, calls[..|calls| - 1]) && Orderly(objects, calls[..|calls| - 1], calls[|calls| - 1]))
  }

  lemma OrderlySnoc(objects: Objects, calls: seq<Call>, call: Call)
    requires OrderlyDeletes(objects, calls) && Orderly(objects, calls, call)
    ensures OrderlyDeletes(objects, calls + [call])
  {
    assert (calls + [call])[..|calls|] == calls;
  }

  lemma {:induction false} DeadCallKeys(dead: seq<nat>)
    ensures forall k :: Delete(k) in DeadCalls(dead) <==> !k.SnapshotKey? && k.digest in dead
  {
    if dead != [] {
      var init, d := dead[..|dead| - 1], dead[|dead| - 1];
      DeadCallKeys(init);
      assert dead == init + [d];
    }
  }

  lemma {:induction false} DeadCallsOrderly(objects: Objects, dead: seq<nat>)
    requires Distinct(dead) && forall d :: d in dead ==> Dead(objects, d)
    ensures OrderlyDeletes(objects, DeadCalls(dead))
  {
    if dead != [] {
      var init, d := dead[..|dead| - 1], dead[|dead| - 1];
      DeadCallsOrderly(objects, init);
      DeadCallKeys(init);
      var before := DeadCalls(init);
      assert Dead(objects, d) && d !in init;
      OrderlySnoc(objects, before, Delete(IndexKey(d)));
      OrderlySnoc(objects, before + [Delete(IndexKey(d))], Delete(PackKey(d)));
      assert DeadCalls(dead) == before + [Delete(IndexKey(d))] + [Delete(PackKey(d))];
    }
  }

  lemma {:induction false} OrphanCallsOrderly(objects: Objects, calls: seq<Call>, orphans: seq<nat>)
    requires OrderlyDeletes(objects, calls) && forall d :: d in orphans ==> Orphan(objects, d)
    ensures OrderlyDeletes(objects, calls + OrphanCalls(orphans))
    ensures forall k :: Delete(k) in OrphanCalls(orphans) <==> k.PackKey? && k.digest in orphans
  {
    if orphans == [] {
      assert calls + OrphanCalls(orphans) == calls;
    } else {
      var init, d := orphans[..|orphans| - 1], orphans[|orphans| - 1];
      assert orphans == init + [d];
      OrphanCallsOrderly(objects, calls, init);
      assert Orphan(objects, d);
      OrderlySnoc(objects, calls + OrphanCalls(init), Delete(PackKey(d)));
      assert OrphanCalls(orphans) == OrphanCalls(init) + [Delete(PackKey(d))];
      assert calls + OrphanCalls(orphans) == calls + OrphanCalls(init) + [Delete(PackKey(d))];
    }
  }

  lemma PruneCallsOrderly(objects: Objects, dead: seq<nat>, orphans: seq<nat>)
    requires PruneOrders(objects, dead, orphans)
    ensures OrderlyDeletes(objects, PruneCalls(dead, orphans))
    ensures forall k :: Delete(k) in PruneCalls(dead, orphans) <==>
              !k.SnapshotKey? && (k.digest in dead || (k.PackKey? && k.digest in orphans))
  {
    DeadCallsOrderly(objects, dead);
    DeadCallKeys(dead);
    OrphanCallsOrderly(objects, DeadCalls(dead), orphans);
  }

  /** All the keys deleted by these calls. */
  function Targets(calls: seq<Call>): set<Key> {
    set call | call in calls && call.Delete? :: call.key
  }

  lemma {:induction false} DeletesRemove(objects: Objects, calls: seq<Call>)
    requires OrderlyDeletes(objects, calls)
    ensures ApplyAll(objects, calls) == objects - Targets(calls)
    ensures forall k :: k in Targets(calls) <==> Delete(k) in calls
  {
    if calls != [] {
      var init, last := calls[..|calls| - 1], calls[|calls| - 1];
      assert calls == init + [last];
      DeletesRemove(objects, init);
      assert Targets(calls) == Targets(init) + {last.key};
    }
  }

  /** However many of its calls a prune gets to make, each of them is safe. */
  lemma {:induction false} OrderlyDeletesAreSafe(c: Primitives, universe: iset<EncodedChunk>, packSize: int,
                                                objects: Objects, calls: seq<Call>)
    requires OrderlyDeletes(objects, calls)
    ensures SafeCalls(c, universe, packSize, objects, calls)
  {
    if calls != [] {
      var init, last := calls[..|calls| - 1], calls[|calls| - 1];
      OrderlyDeletesAreSafe(c, universe, packSize, objects, init);
      DeletesRemove(objects, init);
      RemovalLosesLiveness(objects, Targets(init));
    }
  }

  lemma RemovalLosesLiveness(objects: Objects, gone: set<Key>)
    ensures forall id :: Live(objects - gone, id) ==> Live(objects, id)
    ensures forall d :: IndexKey(d) in objects - gone ==> SegmentChunks(objects - gone, d) == SegmentChunks(objects, d)
  {
    forall id | Live(objects - gone, id) ensures Live(objects, id) {
      var name :| SnapshotKey(name) in objects - gone && (objects - gone)[SnapshotKey(name)].SnapshotObject?
                  && id in ChunksOf((objects - gone)[SnapshotKey(name)].snapshot);
      assert objects[SnapshotKey(name)] == (objects - gone)[SnapshotKey(name)];
    }
  }

  // ------------------------------------------------------------ exactness

  /** A completed prune leaves exactly what `Pruned` describes. */
  lemma PruneIsExact(objects: Objects, dead: seq<nat>, orphans: seq<nat>)
    requires PruneOrders(objects, dead, orphans)
    ensures ApplyAll(objects, PruneCalls(dead, orphans)) == Pruned(objects)
  {
    var calls := PruneCalls(dead, orphans);
    PruneCallsOrderly(objects, dead, orphans);
    DeletesRemove(objects, calls);
    forall k | k in objects ensures k in Targets(calls) <==> !KeptKey(objects, k) {
      assert k in Targets(calls) <==> Delete(k) in calls;
      if !k.SnapshotKey? {
        assert k.digest in dead <==> Dead(objects, k.digest);
        assert k.digest in orphans <==> Orphan(objects, k.digest);
      }
    }
    assert (objects - Targets(calls)).Keys == Pruned(objects).Keys;
  }

  lemma PrunedKeepsLiveness(objects: Objects)
    ensures forall id :: Live(Pruned(objects), id) <==> Live(objects, id)
    ensures forall d :: IndexKey(d) in Pruned(objects) ==> !Dead(Pruned(objects), d)
  {
    var after := Pruned(objects);
    forall id ensures Live(after, id) <==> Live(objects, id) {
      if Live(objects, id) {
        var name :| SnapshotKey(name) in objects && objects[SnapshotKey(name)].SnapshotObject?
                    && id in ChunksOf(objects[SnapshotKey(name)].snapshot);
        assert SnapshotKey(name) in after;
      }
    }
    forall d | IndexKey(d) in after ensures !Dead(after, d) {
      var id :| id in SegmentChunks(objects, d) && Live(objects, id);
      assert id in SegmentChunks(after, d);
    }
  }

  /** Every live chunk is found at the very same place before and after. */
  lemma PruneKeepsLocations(objects: Objects, before: map<ChunkId, Location>, after: map<ChunkId, Location>,
                            id: ChunkId)
    requires IsIndexOf(objects, before) && IsIndexOf(Pruned(objects), after)
    requires Live(objects, id)
    ensures id in before <==> id in after
    ensures id in before ==> after[id] == before[id]
  {
    var left := Pruned(objects);
    assert forall d :: id in SegmentChunks(objects, d) <==> id in SegmentChunks(left, d) by {
      forall d | id in SegmentChunks(objects, d) ensures id in SegmentChunks(left, d) {
        assert !Dead(objects, d);
        assert IndexKey(d) in left;
      }
    }
    if Indexed(objects, id) {
      var d := HolderExists(objects, id);
      assert FirstHolder(left, d, id);
    } else {
      assert !Indexed(left, id);
    }
  }

  /** What remains is the segments with a live chunk and their packs, and nothing else of either. */
  lemma PrunedExactly(c: Primitives, universe: iset<EncodedChunk>, packSize: int, objects: Objects, d: nat)
    requires Sound(c, universe, packSize, objects)
    ensures IndexKey(d) in Pruned(objects) <==> exists id :: id in SegmentChunks(objects, d) && Live(objects, id)
    ensures PackKey(d) in Pruned(objects) <==> IndexKey(d) in Pruned(objects)
  {
    if id: ChunkId :| id in SegmentChunks(objects, d) && Live(objects, id) {
      assert IndexKey(d) in objects;
      assert !Dead(objects, d);
    }
    if IndexKey(d) in objects {
      assert PackIntact(c, universe, packSize, objects, d);
    }
  }

  /** A second prune finds nothing to delete. */
  lemma PruneIsIdempotent(objects: Objects, dead: seq<nat>, orphans: seq<nat>)
    requires PruneOrders(Pruned(objects), dead, orphans)
    ensures dead == [] && orphans == []
    ensures Pruned(Pruned(objects)) == Pruned(objects)
  {
    var left := Pruned(objects);
    PrunedKeepsLiveness(objects);
    if dead != [] {
      HasElement(dead);
    }
    forall d ensures !Orphan(left, d) {
      if PackKey(d) in left {
        assert IndexKey(d) in left;
      }
    }
    if orphans != [] {
      HasElement(orphans);
    }
    assert forall k :: k in left ==> KeptKey(left, k);
  }

  // ------------------------------------------------------------ bytes

  function PackSizes(objects: Objects): map<nat, nat> {
    map k | k in objects && k.PackKey? && objects[k].PackObject? :: k.digest := |objects[k].bytes|
  }

  ghost function Total(sizes: map<nat, nat>): nat
    decreases |sizes.Keys|
  {
    if sizes.Keys == {} then 0
    else
      var d := Least(sizes.Keys);
      assert (sizes - {d}).Keys == sizes.Keys - {d};
      sizes[d] + Total(sizes - {d})
  }

  lemma {:induction false} TotalWithout(sizes: map<nat, nat>, d: nat)
    requires d in sizes
    ensures Total(sizes) == sizes[d] + Total(sizes - {d})
    decreases |sizes.Keys|
  {
    var m := Least(sizes.Keys);
    if d != m {
      assert (sizes - {m}).Keys == sizes.Keys - {m} && (sizes - {d}).Keys == sizes.Keys - {d};
      TotalWithout(sizes - {m}, d);
      var l := Least((sizes - {d}).Keys);
      assert l in sizes.Keys && m in (sizes - {d}).Keys;
      assert l == m;
      assert (sizes - {m}) - {d} == (sizes - {d}) - {m};
    }
  }

  lemma {:induction false} TotalSplits(sizes: map<nat, nat>, gone: set<nat>)
    requires gone <= sizes.Keys
    ensures Total(sizes) == Total(sizes - gone) + Total(sizes - (sizes.Keys - gone))
    decreases gone
  {
    if gone == {} {
      assert sizes - gone == sizes;
      assert (sizes - (sizes.Keys - gone)).Keys == {};
    } else {
      var d :| d in gone;
      var rest := gone - {d};
      TotalSplits(sizes, rest);
      TotalWithout(sizes - rest, d);
      assert (sizes - rest) - {d} == sizes - gone;
      var taken := sizes - (sizes.Keys - gone);
      TotalWithout(taken, d);
      assert taken - {d} == sizes - (sizes.Keys - rest);
    }
  }

  /** The packs a prune removes, as it reports them. */
  ghost function ReclaimedBytes(objects: Objects): nat {
    Total(map d | d in PackSizes(objects) && !KeptKey(objects, PackKey(d)) :: PackSizes(objects)[d])
  }

  /** No byte is lost track of: what was stored is what is left plus what is reported. */
  lemma PruneConservesBytes(objects: Objects)
    ensures Total(PackSizes(objects)) == Total(PackSizes(Pruned(objects))) + ReclaimedBytes(objects)
  {
    hide Total, KeptKey;
    var sizes := PackSizes(objects);
    var gone := set d | d in sizes && !KeptKey(objects, PackKey(d));
    TotalSplits(sizes, gone);
    assert sizes - gone == PackSizes(Pruned(objects));
    assert sizes - (sizes.Keys - gone) == map d | d in sizes && !KeptKey(objects, PackKey(d)) :: sizes[d];
  }
}
