/** The repository store as it runs: methods over a storage provider. */
module Repository {
  import opened ByteStrings
  import opened Listings
  import opened Codec
  import opened Packs
  import opened Store
  import opened Calls
  import opened Upload
  import opened Prune
  import opened Restore
  import opened Runs

  /** A storage backend. A call that fails has no effect; a crash is a call never made. */
  class Provider {
    var objects: Objects
    ghost var calls: seq<Call>

    constructor (initial: Objects)
      ensures objects == initial && calls == []
    {
      objects := initial;
      calls := [];
    }

    method Upload(key: Key, body: Object) returns (ok: bool)
      modifies this
      ensures ok ==> objects == Apply(old(objects), Put(key, body)) && calls == old(calls) + [Put(key, body)]
      ensures !ok ==> objects == old(objects) && calls == old(calls)
    {
      ok := *;
      if ok {
        objects := objects[key := body];
        calls := calls + [Put(key, body)];
      }
    }

    method Delete(key: Key) returns (ok: bool)
      modifies this
      ensures ok ==> objects == Apply(old(objects), Call.Delete(key)) && calls == old(calls) + [Call.Delete(key)]
      ensures !ok ==> objects == old(objects) && calls == old(calls)
    {
      ok := *;
      if ok {
        objects := objects - {key};
        calls := calls + [Call.Delete(key)];
      }
    }
  }

  /** The stored index object has the chunk, and none with a smaller digest has. */
  ghost predicate FirstWith(objects: Objects, d: nat, id: ChunkId) {
    && IndexKey(d) in objects && objects[IndexKey(d)].IndexObject? && id in objects[IndexKey(d)].segment.chunks
    && forall e: nat :: e < d && IndexKey(e) in objects && objects[IndexKey(e)].IndexObject? ==>
      id !in objects[IndexKey(e)].segment.chunks
  }

  /** Each chunk that some index object mentions is where the first one says, and no other has a location. */
  lemma FirstMentionWins(objects: Objects, locations: map<ChunkId, Location>)
    requires IsIndexOf(objects, locations)
    ensures forall d, id :: FirstWith(objects, d, id) ==>
      id in locations && locations[id] == objects[IndexKey(d)].segment.chunks[id]
    ensures forall id :: id in locations ==> exists d :: FirstWith(objects, d, id)
  {
    forall d, id | FirstWith(objects, d, id) ensures FirstHolder(objects, d, id) {
      assert id in SegmentChunks(objects, d);
    }
    forall id | id in locations ensures exists d :: FirstWith(objects, d, id) {
      var d := HolderExists(objects, id);
      forall e: nat | e < d && IndexKey(e) in objects && objects[IndexKey(e)].IndexObject?
        ensures id !in objects[IndexKey(e)].segment.chunks
      {
        assert id in SegmentChunks(objects, e) ==> d <= e;
      }
      assert FirstWith(objects, d, id);
    }
  }

  /** Merges all index objects in key order; the first mention of a chunk wins. */
  method LoadIndex(objects: Objects, packSize: int) returns (r: Result<map<ChunkId, Location>, RepositoryError>)
    ensures r.Ok? ==> IsIndexOf(objects, r.value)
    ensures r.Ok? ==> forall d, id :: FirstWith(objects, d, id) ==>
      id in r.value && r.value[id] == objects[IndexKey(d)].segment.chunks[id]
    ensures r.Ok? ==> forall id :: id in r.value ==> exists d :: FirstWith(objects, d, id)
    ensures r.Ok? <==> forall d :: IndexKey(d) in objects ==> ReadSegment(objects, d, packSize).Ok?
  {
    hide FirstWith;
    var digests := Sorted(IndexDigests(objects));
    assert forall d :: d in digests <==> IndexKey(d) in objects by {
      forall d | IndexKey(d) in objects ensures d in IndexDigests(objects) {
        assert IndexKey(d).digest == d;
      }
    }
    var locations: map<ChunkId, Location> := map[];
    for n := 0 to |digests|
      invariant forall i :: 0 <= i < n ==> ReadSegment(objects, digests[i], packSize).Ok?
      invariant Merged(objects, digests, n, locations)
    {
      hide Merged, ValidSegment, Indexed, FirstHolder;
      var segment := ReadSegment(objects, digests[n], packSize);
      if segment.Err? {
        assert digests[n] in digests;
        return Err(segment.error);
      }
      assert segment.value.chunks == SegmentChunks(objects, digests[n]);
      OneMoreMerged(objects, digests, n, locations);
      locations := segment.value.chunks + locations;
    }
    AllMerged(objects, digests, locations);
    FirstMentionWins(objects, locations);
    return Ok(locations);
  }

  ghost predicate FirstAmong(objects: Objects, digests: seq<nat>, i: nat, id: ChunkId)
    requires i < |digests|
  {
    id in SegmentChunks(objects, digests[i]) && forall j :: 0 <= j < i ==> id !in SegmentChunks(objects, digests[j])
  }

  /** The locations of the first `n` index objects, the first mention winning. */
  ghost predicate Merged(objects: Objects, digests: seq<nat>, n: nat, locations: map<ChunkId, Location>)
    requires n <= |digests|
  {
    && (forall id :: id in locations ==>
          exists i :: 0 <= i < n && FirstAmong(objects, digests, i, id)
              && locations[id] == SegmentChunks(objects, digests[i])[id])
    && (forall i, id :: 0 <= i < n && id in SegmentChunks(objects, digests[i]) ==> id in locations)
  }

  lemma OneMoreMerged(objects: Objects, digests: seq<nat>, n: nat, before: map<ChunkId, Location>)
    requires n < |digests| && Merged(objects, digests, n, before)
    ensures Merged(objects, digests, n + 1, SegmentChunks(objects, digests[n]) + before)
  {
    hide SegmentChunks;
    var locations := SegmentChunks(objects, digests[n]) + before;
    forall id | id in locations
      ensures exists i ::
        0 <= i < n + 1 && FirstAmong(objects, digests, i, id) && locations[id] == SegmentChunks(objects, digests[i])[id]
    {
      if id in before {
        var i :| 0 <= i < n && FirstAmong(objects, digests, i, id)
            && before[id] == SegmentChunks(objects, digests[i])[id];
        assert FirstAmong(objects, digests, i, id);
      } else {
        assert FirstAmong(objects, digests, n, id);
      }
    }
  }

  lemma AllMerged(objects: Objects, digests: seq<nat>, locations: map<ChunkId, Location>)
    requires Ascending(digests) && forall d :: d in digests <==> IndexKey(d) in objects
    requires Merged(objects, digests, |digests|, locations)
    ensures IsIndexOf(objects, locations)
  {
    forall id ensures id in locations <==> Indexed(objects, id) {
      if Indexed(objects, id) {
        var d :| id in SegmentChunks(objects, d);
        assert d in digests;
      }
    }
    forall id, d | FirstHolder(objects, d, id)
      ensures id in locations && locations[id] == SegmentChunks(objects, d)[id]
    {
      assert d in digests;
      var k :| 0 <= k < |digests| && digests[k] == d;
      var i :| 0 <= i < |digests| && FirstAmong(objects, digests, i, id)
          && locations[id] == SegmentChunks(objects, digests[i])[id];
      assert d <= digests[i];
    }
  }
}
