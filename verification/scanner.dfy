/** Building a plan from a directory walk: chunking, deduplication and the spool file. */
module Scanner {
  import opened ByteStrings
  import opened Codec
  import opened Store
  import opened Upload
  import opened Restore
  import opened Validation
  import Chunker

  /** The deduplicated chunks collected so far. */
  datatype Spool = Spool(bytes: Bytes, chunks: map<ChunkId, PlanChunk>, order: seq<ChunkId>)

  ghost predicate Holds(c: Primitives, k: Compression, e: bool, s: Spool, id: ChunkId) {
    && id in s.chunks
    && s.chunks[id].offset + s.chunks[id].size <= |s.bytes|
    && var raw := s.bytes[s.chunks[id].offset..s.chunks[id].offset + s.chunks[id].size];
       0 < |raw| <= CHUNK_MAX && id == IdOf(c, raw, k, e)
  }

  ghost predicate ValidSpool(c: Primitives, k: Compression, e: bool, s: Spool) {
    && (forall i, j :: 0 <= i < j < |s.order| ==> s.order[i] != s.order[j])
    && (forall id :: id in s.chunks <==> id in s.order)
    && (forall id :: id in s.chunks ==> Holds(c, k, e, s, id))
  }

  /** A chunk goes to the spool only the first time its id is seen. */
  method Deduplicate(c: Primitives, k: Compression, e: bool, s: Spool, raw: Bytes) returns (s': Spool)
    requires ValidSpool(c, k, e, s) && 0 < |raw| <= CHUNK_MAX
    ensures ValidSpool(c, k, e, s')
    ensures s'.chunks.Keys == s.chunks.Keys + {IdOf(c, raw, k, e)}
    ensures IdOf(c, raw, k, e) in s.chunks ==> s' == s
    ensures IdOf(c, raw, k, e) !in s.chunks ==> s'.bytes == s.bytes + raw && s'.order == s.order + [IdOf(c, raw, k, e)]
  {
    var id := IdOf(c, raw, k, e);
    if id in s.chunks {
      return s;
    }
    s' := Spool(s.bytes + raw, s.chunks[id := PlanChunk(|s.bytes|, |raw|)], s.order + [id]);
    forall i | i in s'.chunks ensures Holds(c, k, e, s', i) {
      if i == id {
        assert s'.bytes[|s.bytes|..|s.bytes| + |raw|] == raw;
      } else {
        assert Holds(c, k, e, s, i);
        var at := s.chunks[i];
        assert s'.bytes[at.offset..at.offset + at.size] == s.bytes[at.offset..at.offset + at.size];
      }
    }
  }

  /** Splits one file, spooling what is new. */
  method ScanFile(c: Primitives, p: Chunker.Params, k: Compression, e: bool, s: Spool, content: Bytes)
    returns (s': Spool, ids: seq<ChunkId>)
    requires Chunker.ValidParams(p) && p.maxSize <= CHUNK_MAX && ValidSpool(c, k, e, s)
    ensures ValidSpool(c, k, e, s') && s.chunks.Keys <= s'.chunks.Keys
    ensures ids == ChunkIds(c, Chunker.Chunks(p, content), k, e)
    ensures forall i :: 0 <= i < |ids| ==> ids[i] in s'.chunks
  {
    hide Chunker.Chunks, Holds;
    var parts := Chunker.Chunks(p, content);
    Chunker.ChunksPartition(p, content);
    s', ids := s, [];
    for n := 0 to |parts|
      invariant ValidSpool(c, k, e, s') && s.chunks.Keys <= s'.chunks.Keys
      invariant |ids| == n && forall i :: 0 <= i < n ==> ids[i] == IdOf(c, parts[i], k, e) && ids[i] in s'.chunks
    {
      ids := ids + [IdOf(c, parts[n], k, e)];
      s' := Deduplicate(c, k, e, s', parts[n]);
    }
  }

  ghost predicate Named(entries: seq<Entry>, name: string) {
    exists i :: 0 <= i < |entries| && entries[i].path == name
  }

  lemma NamedGrows(entries: seq<Entry>, last: Entry)
    ensures forall name :: Named(entries + [last], name) <==> Named(entries, name) || name == last.path
  {
    forall name ensures Named(entries + [last], name) <==> Named(entries, name) || name == last.path {
      if Named(entries, name) {
        var i :| 0 <= i < |entries| && entries[i].path == name;
        assert (entries + [last])[i].path == name;
      }
      if name == last.path {
        assert (entries + [last])[|entries|].path == name;
      }
    }
  }

  ghost predicate Covered(entries: seq<Entry>, chunks: map<ChunkId, PlanChunk>) {
    forall i, j :: 0 <= i < |entries| && 0 <= j < |entries[i].chunks| ==> entries[i].chunks[j] in chunks
  }

  lemma CoveredGrows(entries: seq<Entry>, last: Entry, chunks: map<ChunkId, PlanChunk>,
                     chunks': map<ChunkId, PlanChunk>)
    requires Covered(entries, chunks) && chunks.Keys <= chunks'.Keys
    requires forall j :: 0 <= j < |last.chunks| ==> last.chunks[j] in chunks'
    ensures Covered(entries + [last], chunks')
  {
    forall i, j | 0 <= i <= |entries| && 0 <= j < |(entries + [last])[i].chunks|
      ensures (entries + [last])[i].chunks[j] in chunks'
    {
      if i < |entries| {
        assert entries[i].chunks[j] in chunks;
      }
    }
  }

  lemma SpoolMakesPlan(c: Primitives, s: Spool, snapshot: Snapshot)
    requires ValidSpool(c, snapshot.compression, snapshot.encrypted, s) && Covered(snapshot.entries, s.chunks)
    requires ValidSnapshot(snapshot) && (snapshot.encrypted ==> c.hasKey)
    ensures ValidPlan(c, Plan(s.bytes, s.chunks, s.order, snapshot))
  {
    forall id | id in s.chunks ensures Holds(c, snapshot.compression, snapshot.encrypted, s, id) {
    }
  }

  /**
   Scans a walk into a plan, or reports why it cannot be backed up. A plan that comes out
   describes the walk and satisfies everything an upload relies on.
   */
  method BuildPlan(c: Primitives, p: Chunker.Params, visits: seq<Visit>, k: Compression, e: bool)
    returns (r: Result<Plan, RepositoryError>)
    requires Chunker.ValidParams(p) && p.maxSize <= CHUNK_MAX
    ensures r.Ok? ==>
      ValidPlan(c, r.value) && r.value.snapshot == Snapshot(FORMAT_VERSION, k, e, EntriesOf(c, p, visits, k, e))
    ensures r.Err? <==>
      (e && !c.hasKey) || !ValidSnapshot(Snapshot(FORMAT_VERSION, k, e, EntriesOf(c, p, visits, k, e)))
    ensures r.Err? <==> (e && !c.hasKey) || !Storable(visits)
  {
    hide Chunker.Chunks, ChunkIds, Holds, Storable;
    WalkAcceptedIff(c, p, visits, k, e);
    if e && !c.hasKey {
      return Err(KeyRequired);
    }
    var spool := Spool([], map[], []);
    var entries: seq<Entry> := [];
    var seen: set<string> := {};
    for n := 0 to |visits|
      invariant ValidSpool(c, k, e, spool)
      invariant entries == EntriesOf(c, p, visits[..n], k, e) && Covered(entries, spool.chunks)
      invariant forall name :: name in seen <==> Named(entries, name)
      invariant forall i, j :: 0 <= i < j < |entries| ==> entries[i].path != entries[j].path
    {
      var v := visits[n];
      ghost var front := visits[..n];
      assert visits[..n + 1][..n] == front;
      EntriesSnoc(c, p, visits[..n + 1], k, e);
      if !v.node.SpecialNode? {
        var entry := EntryOf(c, p, v, k, e);
        if v.path in seen {
          var i :| 0 <= i < |entries| && entries[i].path == v.path;
          DuplicateInvalid(c, p, visits, n, i, k, e);
          return Err(DuplicateEntry(v.path));
        }
        ghost var before := spool.chunks;
        if v.node.FileNode? {
          var ids;
          spool, ids := ScanFile(c, p, k, e, spool, v.node.content);
        }
        CoveredGrows(entries, entry, before, spool.chunks);
        NamedGrows(entries, entry);
        entries := entries + [entry];
        seen := seen + {v.path};
      }
    }
    assert visits[..|visits|] == visits;
    var snapshot := Snapshot(FORMAT_VERSION, k, e, entries);
    if !ValidSnapshot(snapshot) {
      return Err(InvalidSnapshot);
    }
    var plan := Plan(spool.bytes, spool.chunks, spool.order, snapshot);
    SpoolMakesPlan(c, spool, snapshot);
    return Ok(plan);
  }

  /** A walk that meets a name twice does not make a valid snapshot. */
  lemma {:induction false} DuplicateInvalid(c: Primitives, p: Chunker.Params, visits: seq<Visit>, n: nat, i: nat,
                                            k: Compression, e: bool)
    requires Chunker.ValidParams(p) && n < |visits| && !visits[n].node.SpecialNode?
    requires i < |EntriesOf(c, p, visits[..n], k, e)|
    requires EntriesOf(c, p, visits[..n], k, e)[i].path == visits[n].path
    ensures !ValidSnapshot(Snapshot(FORMAT_VERSION, k, e, EntriesOf(c, p, visits, k, e)))
    decreases |visits|
  {
    var all, front := EntriesOf(c, p, visits, k, e), EntriesOf(c, p, visits[..n], k, e);
    EntriesPrefix(c, p, visits, n, k, e);
    EntriesPrefix(c, p, visits, n + 1, k, e);
    assert visits[..n + 1][..n] == visits[..n];
    EntriesSnoc(c, p, visits[..n + 1], k, e);
    assert all[i].path == all[|front|].path;
  }

  lemma {:induction false} EntriesPrefix(c: Primitives, p: Chunker.Params, visits: seq<Visit>, n: nat, k: Compression,
                                         e: bool)
    requires Chunker.ValidParams(p) && n <= |visits|
    ensures EntriesOf(c, p, visits[..n], k, e) <= EntriesOf(c, p, visits, k, e)
  {
    if n == |visits| {
      assert visits[..n] == visits;
    } else {
      var front := visits[..|visits| - 1];
      EntriesPrefix(c, p, front, n, k, e);
      assert front[..n] == visits[..n];
      EntriesSnoc(c, p, visits, k, e);
    }
  }
}
