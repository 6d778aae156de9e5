/** Restoring, exporting and verifying a stored snapshot. */
module Reading {
  import opened ByteStrings
  import opened Codec
  import opened Links
  import opened Packs
  import opened Store
  import opened Restore
  import opened Repository
  import opened Restorable
  import opened Validation

  datatype VerifyResult = VerifyResult(entries: nat, chunks: nat, bytes: nat)

  /** In a sound repository the index always loads. */
  lemma SoundIndexLoads(c: Primitives, universe: iset<EncodedChunk>, packSize: int, objects: Objects)
    requires Sound(c, universe, packSize, objects)
    ensures IndexLoads(objects, packSize)
  {
    forall k | k in objects && k.IndexKey? ensures ReadSegment(objects, k.digest, packSize).Ok? {
      WrittenSegmentsAreValid(c, universe, packSize, objects, k.digest);
    }
  }

  ghost predicate Reads(c: Primitives, objects: Objects, locations: map<ChunkId, Location>, id: ChunkId) {
    ReadChunk(c, objects, locations, id).Ok?
  }

  /** The total size of these chunks, read back. */
  ghost function TotalSize(c: Primitives, objects: Objects, locations: map<ChunkId, Location>, ids: seq<ChunkId>): nat
    requires forall id :: id in ids ==> Reads(c, objects, locations, id)
  {
    if ids == [] then 0
    else
      assert Reads(c, objects, locations, ids[|ids| - 1]);
      TotalSize(c, objects, locations, ids[..|ids| - 1]) + |ReadChunk(c, objects, locations, ids[|ids| - 1]).value|
  }

  /** A checksum was given, the snapshot under that name has it and is valid, and the index loads. */
  predicate Openable(c: Primitives, objects: Objects, packSize: int, name: string, expected: Option<nat>) {
    expected.Some? && ReadSnapshot(c, objects, name, expected).Ok? && IndexLoads(objects, packSize)
  }

  predicate IndexLoads(objects: Objects, packSize: int) {
    forall k :: k in objects && k.IndexKey? ==> ReadSegment(objects, k.digest, packSize).Ok?
  }

  /** The stored snapshot has this checksum, it can be decrypted, and it and all indexes are acceptable. */
  ghost predicate Acceptable(c: Primitives, objects: Objects, packSize: int, name: string, checksum: nat) {
    && SnapshotKey(name) in objects && objects[SnapshotKey(name)].SnapshotObject?
    && objects[SnapshotKey(name)].checksum == checksum
    && var snapshot := objects[SnapshotKey(name)].snapshot;
    && (snapshot.encrypted ==> c.hasKey)
    && snapshot.version == 1 && AcceptableNames(snapshot.entries)
    && (forall e :: e in snapshot.entries ==> AcceptableEntry(e, snapshot.encrypted))
    && forall d :: IndexKey(d) in objects ==>
      objects[IndexKey(d)].IndexObject? && AcceptableSegment(objects[IndexKey(d)].segment, d, packSize)
  }

  lemma OpenableIff(c: Primitives, objects: Objects, packSize: int, name: string, checksum: nat)
    ensures Openable(c, objects, packSize, name, Some(checksum)) <==> Acceptable(c, objects, packSize, name, checksum)
  {
    hide ValidSnapshot, AcceptableEntry, AcceptableNames, AcceptableSegment, ReadSegment;
    if SnapshotKey(name) in objects && objects[SnapshotKey(name)].SnapshotObject? {
      SnapshotAcceptedIff(objects[SnapshotKey(name)].snapshot);
    }
    forall d | IndexKey(d) in objects
      ensures ReadSegment(objects, d, packSize).Ok? <==>
        objects[IndexKey(d)].IndexObject? && AcceptableSegment(objects[IndexKey(d)].segment, d, packSize)
    {
      SegmentAcceptedIff(objects, d, packSize);
    }
    assert IndexLoads(objects, packSize) <==>
        forall d :: IndexKey(d) in objects ==> ReadSegment(objects, d, packSize).Ok? by {
      forall d | IndexLoads(objects, packSize) && IndexKey(d) in objects
        ensures ReadSegment(objects, d, packSize).Ok?
      {
        assert IndexKey(d).digest == d;
      }
      forall k | k in objects && k.IndexKey? ensures k == IndexKey(k.digest) {
      }
    }
  }

  /** A snapshot that reads is the stored one, of the expected checksum, and its names are plain. */
  lemma ReadEntriesArePlain(c: Primitives, objects: Objects, name: string, expected: Option<nat>)
    requires ReadSnapshot(c, objects, name, expected).Ok?
    ensures var snapshot := ReadSnapshot(c, objects, name, expected).value;
      && SnapshotKey(name) in objects && objects[SnapshotKey(name)].SnapshotObject?
      && objects[SnapshotKey(name)].snapshot == snapshot
      && (expected.Some? ==> objects[SnapshotKey(name)].checksum == expected.value)
      && forall i :: 0 <= i < |snapshot.entries| ==> AllPlain(Split(snapshot.entries[i].path))
  {
  }

  lemma OpenedIsStored(c: Primitives, objects: Objects, packSize: int, name: string, expected: Option<nat>)
    requires Openable(c, objects, packSize, name, expected)
    ensures SnapshotKey(name) in objects && objects[SnapshotKey(name)].SnapshotObject?
    ensures objects[SnapshotKey(name)].snapshot == ReadSnapshot(c, objects, name, expected).value
    ensures ValidSnapshot(objects[SnapshotKey(name)].snapshot)
  {
    hide ValidSnapshot;
  }

  class RepositoryReader {
    const c: Primitives
    const packSize: int

    constructor (c: Primitives, packSize: int)
      ensures this.c == c && this.packSize == packSize
    {
      this.c, this.packSize := c, packSize;
    }

    /** Loads snapshot and index; a restore, export or verification must name a checksum. */
    method Open(objects: Objects, name: string, expected: Option<nat>)
      returns (r: Result<(Snapshot, map<ChunkId, Location>), RepositoryError>)
      ensures r.Ok? ==> IsIndexOf(objects, r.value.1)
      ensures r.Ok? ==> ReadSnapshot(c, objects, name, expected) == Ok(r.value.0)
      ensures r.Ok? <==> Openable(c, objects, packSize, name, expected)
      ensures r.Ok? <==> expected.Some? && Acceptable(c, objects, packSize, name, expected.value)
      ensures r.Ok? ==> objects[SnapshotKey(name)] == SnapshotObject(r.value.0, expected.value)
    {
      hide ReadSegment, IsIndexOf, Acceptable, ValidSnapshot;
      if expected.Some? {
        OpenableIff(c, objects, packSize, name, expected.value);
      }
      if expected.None? {
        return Err(ChecksumRequired);
      }
      var snapshot := ReadSnapshot(c, objects, name, expected);
      if snapshot.Err? {
        return Err(snapshot.error);
      }
      var index := LoadIndex(objects, packSize);
      if index.Err? {
        return Err(index.error);
      }
      return Ok((snapshot.value, index.value));
    }

    /** The bytes of one file, read chunk by chunk. */
    method ReadFile(objects: Objects, locations: map<ChunkId, Location>, chunks: seq<ChunkId>)
      returns (r: Result<Bytes, RepositoryError>)
      ensures r == FileBytes(c, objects, locations, chunks)
    {
      var written: Bytes := [];
      for n := 0 to |chunks|
        invariant FileBytes(c, objects, locations, chunks[..n]) == Ok(written)
      {
        assert chunks[..n + 1][..n] == chunks[..n];
        var raw := ReadChunk(c, objects, locations, chunks[n]);
        if raw.Err? {
          FailureIsFinal(c, objects, locations, chunks, n + 1);
          return raw;
        }
        written := written + raw.value;
      }
      assert chunks[..|chunks|] == chunks;
      return Ok(written);
    }

    /** What one entry holds, as stored. */
    method ReadEntry(objects: Objects, locations: map<ChunkId, Location>, e: Entry)
      returns (r: Result<Node, RepositoryError>)
      ensures r == EntryNode(c, objects, locations, e)
    {
      match e.kind
      case Directory => return Ok(DirectoryNode);
      case Symlink => return Ok(LinkNode(e.linkTarget));
      case File =>
        var content := ReadFile(objects, locations, e.chunks);
        if content.Err? {
          return Err(content.error);
        }
        if |content.value| != e.size {
          return Err(SizeMismatch(e.path));
        }
        return Ok(FileNode(content.value));
      case Unsupported => return Err(UnsupportedEntry(e.path));
    }

    /** Creates one entry, with the directories above it. */
    method WriteEntry(objects: Objects, locations: map<ChunkId, Location>, tree: Tree, e: Entry)
      returns (r: Result<Tree, RepositoryError>)
      ensures r == RestoreEntry(c, objects, locations, tree, e)
    {
      hide EntryNode, Obstructed, Occupied, LeadsOutside, WithParents, Relinked;
      if '\0' in e.path {
        return Err(UnsafePath(e.path));
      }
      if Obstructed(tree, e.path) {
        return Err(PathBlocked(e.path));
      }
      var grown := WithParents(tree, e.path);
      if LeadsOutside(e) {
        return Err(UnsafeLink(e.path));
      }
      if Occupied(tree, e) {
        return Err(PathBlocked(e.path));
      }
      var node := ReadEntry(objects, locations, e);
      if node.Err? {
        return Err(node.error);
      }
      return Ok(grown[e.path := Relinked(e.path, node.value)]);
    }

    /** Writes out the wanted entries in order, stopping at the first that cannot be restored. */
    method Restore(objects: Objects, name: string, expected: Option<nat>, selected: seq<string>)
      returns (r: Result<Tree, RepositoryError>, ghost locations: map<ChunkId, Location>)
      ensures r.Ok? ==> Openable(c, objects, packSize, name, expected)
      ensures Openable(c, objects, packSize, name, expected) ==> IsIndexOf(objects, locations)
      ensures Openable(c, objects, packSize, name, expected) ==>
        r == RestoreEntries(c, objects, locations, ReadSnapshot(c, objects, name, expected).value.entries, selected)
      ensures r.Ok? <==> expected.Some? && Acceptable(c, objects, packSize, name, expected.value)
                         && CanRestore(c, objects, locations, objects[SnapshotKey(name)].snapshot.entries, selected)
      ensures r.Ok? ==> forall at :: at in r.value <==>
        exists e :: e in objects[SnapshotKey(name)].snapshot.entries && AskedFor(e.path, selected, at)
    {
      hide ReadSnapshot, ReadSegment, IsIndexOf, RestoreEntries, RestoreEntry, Wanted, AskedFor, CanRestore, Acceptable;
      locations := map[];
      if expected.Some? {
        OpenableIff(c, objects, packSize, name, expected.value);
      }
      var opened_ := Open(objects, name, expected);
      if opened_.Err? {
        return Err(opened_.error), locations;
      }
      var (snapshot, index) := opened_.value;
      locations := index;
      var entries := snapshot.entries;
      OpenedIsStored(c, objects, packSize, name, expected);
      RestoresIff(c, objects, index, snapshot, selected);
      ReadEntriesArePlain(c, objects, name, expected);
      var restored: Tree := map[];
      NothingToRestore(c, objects, index, entries, selected);
      for n := 0 to |entries|
        invariant RestoreEntries(c, objects, index, entries[..n], selected) == Ok(restored)
      {
        RestoreNext(c, objects, index, entries, selected, n);
        var e := entries[n];
        if Wanted(e.path, selected) {
          var grown := WriteEntry(objects, index, restored, e);
          if grown.Err? {
            RestoreFailureIsFinal(c, objects, index, entries, selected, n + 1);
            return grown, locations;
          }
          restored := grown.value;
        }
      }
      assert entries[..|entries|] == entries;
      RestoredNames(c, objects, index, entries, selected);
      return Ok(restored), locations;
    }

    /** Writes all entries to a tar, in order. */
    method ExportTar(objects: Objects, name: string, expected: Option<nat>)
      returns (r: Result<seq<Visit>, RepositoryError>, ghost locations: map<ChunkId, Location>)
      ensures r.Ok? ==> Openable(c, objects, packSize, name, expected)
      ensures Openable(c, objects, packSize, name, expected) ==> IsIndexOf(objects, locations)
      ensures Openable(c, objects, packSize, name, expected) ==>
        r == ExportEntries(c, objects, locations, ReadSnapshot(c, objects, name, expected).value.entries)
      ensures r.Ok? <==>
        && expected.Some? && Acceptable(c, objects, packSize, name, expected.value)
        && forall e :: e in objects[SnapshotKey(name)].snapshot.entries && e.kind == File ==>
          Legible(c, objects, locations, e)
    {
      hide ReadSnapshot, ReadSegment, IsIndexOf, EntryNode, Legible, Acceptable, AcceptableEntry;
      locations := map[];
      if expected.Some? {
        OpenableIff(c, objects, packSize, name, expected.value);
      }
      var opened_ := Open(objects, name, expected);
      if opened_.Err? {
        return Err(opened_.error), locations;
      }
      var (snapshot, index) := opened_.value;
      locations := index;
      var entries := snapshot.entries;
      OpenedIsStored(c, objects, packSize, name, expected);
      SnapshotAcceptedIff(snapshot);
      forall e | e in entries ensures e.kind != Unsupported { NotUnsupported(e, snapshot.encrypted); }
      ExportsIff(c, objects, index, entries);
      var members: seq<Visit> := [];
      for n := 0 to |entries|
        invariant ExportEntries(c, objects, index, entries[..n]) == Ok(members)
      {
        assert entries[..n + 1][..n] == entries[..n];
        var node := ReadEntry(objects, index, entries[n]);
        if node.Err? {
          ExportFailureIsFinal(c, objects, index, entries, n + 1);
          return Err(node.error), locations;
        }
        members := members + [Visit(entries[n].path, node.value)];
      }
      assert entries[..|entries|] == entries;
      return Ok(members), locations;
    }

    /** Reads every distinct chunk of a snapshot once. */
    method Verify(objects: Objects, name: string, expected: Option<nat>)
      returns (r: Result<VerifyResult, RepositoryError>, ghost locations: map<ChunkId, Location>,
          ghost read: seq<ChunkId>)
      ensures r.Ok? ==> Openable(c, objects, packSize, name, expected)
      ensures Openable(c, objects, packSize, name, expected) ==> IsIndexOf(objects, locations)
      ensures r.Ok? ==> var snapshot := ReadSnapshot(c, objects, name, expected).value;
        && (forall id :: id in read <==> id in ChunksOf(snapshot))
        && (forall i, j :: 0 <= i < j < |read| ==> read[i] != read[j])
        && (forall id :: id in read ==> Reads(c, objects, locations, id))
        && r.value == VerifyResult(|snapshot.entries|, |read|, TotalSize(c, objects, locations, read))
      ensures r.Err? && Openable(c, objects, packSize, name, expected) ==>
        exists id :: id in ChunksOf(ReadSnapshot(c, objects, name, expected).value) && !Reads(c, objects, locations, id)
      ensures Openable(c, objects, packSize, name, expected) ==>
        (r.Ok? <==> forall id :: id in ChunksOf(objects[SnapshotKey(name)].snapshot) ==>
          id in locations && exists raw :: Holds(c, objects, locations[id], id, raw))
    {
      hide ReadSnapshot, ReadSegment, IsIndexOf, ReadChunk, Holds;
      locations, read := map[], [];
      if Openable(c, objects, packSize, name, expected) {
        OpenedIsStored(c, objects, packSize, name, expected);
      }
      var opened_ := Open(objects, name, expected);
      if opened_.Err? {
        return Err(opened_.error), locations, read;
      }
      var (snapshot, index) := opened_.value;
      locations := index;
      var entries := snapshot.entries;
      var bytes: nat, chunks: nat := 0, 0;
      var seen: set<ChunkId> := {};
      for n := 0 to |entries|
        invariant forall id :: id in read <==> id in seen
        invariant forall i, j :: 0 <= i < j < |read| ==> read[i] != read[j]
        invariant forall id :: id in read ==> Reads(c, objects, index, id) && id in ChunksOf(snapshot)
        invariant chunks == |read| && bytes == TotalSize(c, objects, index, read)
        invariant forall i, j :: 0 <= i < n && 0 <= j < |entries[i].chunks| ==> entries[i].chunks[j] in seen
      {
        for m := 0 to |entries[n].chunks|
          invariant forall id :: id in read <==> id in seen
          invariant forall i, j :: 0 <= i < j < |read| ==> read[i] != read[j]
          invariant forall id :: id in read ==> Reads(c, objects, index, id) && id in ChunksOf(snapshot)
          invariant chunks == |read| && bytes == TotalSize(c, objects, index, read)
          invariant forall i, j :: 0 <= i < n && 0 <= j < |entries[i].chunks| ==> entries[i].chunks[j] in seen
          invariant forall j :: 0 <= j < m ==> entries[n].chunks[j] in seen
        {
          var id := entries[n].chunks[m];
          if id in seen {
            continue;
          }
          assert id in ChunksOf(snapshot);
          var raw := ReadChunk(c, objects, index, id);
          if raw.Err? {
            assert !Reads(c, objects, index, id);
            ReadsIffHeld(c, objects, index, id);
            return Err(raw.error), locations, read;
          }
          assert (read + [id])[..|read|] == read;
          seen := seen + {id};
          read := read + [id];
          chunks := chunks + 1;
          bytes := bytes + |raw.value|;
        }
      }
      forall id | id in ChunksOf(snapshot)
        ensures id in index && exists raw :: Holds(c, objects, index[id], id, raw)
      {
        assert Reads(c, objects, index, id);
        ReadsIffHeld(c, objects, index, id);
      }
      return Ok(VerifyResult(|entries|, chunks, bytes)), locations, read;
    }
  }

  lemma {:induction false} FailureIsFinal(c: Primitives, objects: Objects, locations: map<ChunkId, Location>,
                                          chunks: seq<ChunkId>, n: nat)
    requires n <= |chunks| && FileBytes(c, objects, locations, chunks[..n]).Err?
    ensures FileBytes(c, objects, locations, chunks) == FileBytes(c, objects, locations, chunks[..n])
    decreases |chunks| - n
  {
    hide ReadChunk;
    if n == |chunks| {
      assert chunks[..n] == chunks;
    } else {
      assert chunks[..n + 1][..n] == chunks[..n];
      FailureIsFinal(c, objects, locations, chunks, n + 1);
    }
  }

  lemma {:induction false} RestoreFailureIsFinal(c: Primitives, objects: Objects, locations: map<ChunkId, Location>,
                                                 entries: seq<Entry>, selected: seq<string>, n: nat)
    requires n <= |entries| && RestoreEntries(c, objects, locations, entries[..n], selected).Err?
    ensures RestoreEntries(c, objects, locations, entries, selected)
        == RestoreEntries(c, objects, locations, entries[..n], selected)
    decreases |entries| - n
  {
    hide RestoreEntry, Wanted;
    if n == |entries| {
      assert entries[..n] == entries;
    } else {
      assert entries[..n + 1][..n] == entries[..n];
      RestoreFailureIsFinal(c, objects, locations, entries, selected, n + 1);
    }
  }

  lemma NothingToRestore(c: Primitives, objects: Objects, locations: map<ChunkId, Location>, entries: seq<Entry>,
                         selected: seq<string>)
    ensures RestoreEntries(c, objects, locations, entries[..0], selected) == Ok(map[])
  {
  }

  /** The next entry is skipped or written after those before it. */
  lemma RestoreNext(c: Primitives, objects: Objects, locations: map<ChunkId, Location>, entries: seq<Entry>,
                    selected: seq<string>, n: nat)
    requires n < |entries|
    ensures var before := RestoreEntries(c, objects, locations, entries[..n], selected);
      RestoreEntries(c, objects, locations, entries[..n + 1], selected) ==
        if before.Err? || !Wanted(entries[n].path, selected) then before
        else RestoreEntry(c, objects, locations, before.value, entries[n])
  {
    hide RestoreEntry, Wanted;
    assert entries[..n + 1][..n] == entries[..n];
  }

  lemma {:induction false} ExportFailureIsFinal(c: Primitives, objects: Objects, locations: map<ChunkId, Location>,
                                                entries: seq<Entry>, n: nat)
    requires n <= |entries| && ExportEntries(c, objects, locations, entries[..n]).Err?
    ensures ExportEntries(c, objects, locations, entries) == ExportEntries(c, objects, locations, entries[..n])
    decreases |entries| - n
  {
    hide EntryNode;
    if n == |entries| {
      assert entries[..n] == entries;
    } else {
      assert entries[..n + 1][..n] == entries[..n];
      ExportFailureIsFinal(c, objects, locations, entries, n + 1);
    }
  }
}
