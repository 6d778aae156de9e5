/**
 What a storage target holds, how the index is read back, and the invariant that
 keeps every snapshot readable.
 */
module Store {
  import opened ByteStrings
  import opened Codec
  import opened Links
  import opened Packs
  import opened Paths

  datatype Kind = Directory | Symlink | File | Unsupported

  datatype Entry = Entry(path: string, kind: Kind, size: int, linkTarget: string, chunks: seq<ChunkId>)

  datatype Snapshot = Snapshot(
    version: int, compression: Compression, encrypted: bool, entries: seq<Entry>)

  datatype Segment = Segment(version: int, pack: nat, chunks: map<ChunkId, Location>)

  /** packs/xx/<digest>.pack, indexes/<digest>.json, snapshots/<name> */
  datatype Key = PackKey(digest: nat) | IndexKey(digest: nat) | SnapshotKey(name: string)

  /** JSON bodies are kept decoded; `checksum` is the digest of a snapshot's stored bytes. */
  datatype Object =
    | PackObject(bytes: Bytes)
    | IndexObject(segment: Segment)
    | SnapshotObject(snapshot: Snapshot, checksum: nat)
    | Unreadable

  type Objects = map<Key, Object>

  datatype RepositoryError =
    | InvalidIndex(digest: nat)
    | InvalidSnapshot
    | ChecksumRequired
    | ChecksumMismatch
    | ChunkNotIndexed(id: ChunkId)
    | PackUnreadable(id: ChunkId)
    | ChunkCorrupt(id: ChunkId)
    | SizeMismatch(path: string)
    | UnsupportedEntry(path: string)
    | UnsafePath(path: string)
    | UnsafeLink(path: string)
    | PathBlocked(path: string)
    | DuplicateEntry(path: string)
    | KeyRequired
    | ProviderFailed

  // ------------------------------------------------------------ validation

  /** A slash-separated relative name without empty, "." or ".." elements. */
  predicate ValidPath(p: string) {
    AllPlain(Split(p)) && '\\' !in p
  }

  predicate ValidEntry(e: Entry, encrypted: bool) {
    && ValidPath(e.path) && e.size >= 0
    && match e.kind
       case Directory => e.chunks == [] && e.linkTarget == ""
       case Symlink => SafeLink(e.path, e.linkTarget) && e.chunks == []
       case File =>
         && e.linkTarget == ""
         && (e.size == 0 <==> e.chunks == [])
         && forall i :: 0 <= i < |e.chunks| ==> e.chunks[i].encrypted == encrypted
       case Unsupported => false
  }

  predicate ValidSnapshot(s: Snapshot) {
    && s.version == FORMAT_VERSION
    && (forall i :: 0 <= i < |s.entries| ==> ValidEntry(s.entries[i], s.encrypted))
    && (forall i, j :: 0 <= i < j < |s.entries| ==> s.entries[i].path != s.entries[j].path)
    && (forall i, j :: 0 <= i < |s.entries| && 0 <= j < |s.entries| && s.entries[i].kind == Symlink ==>
          !Below(s.entries[j].path, s.entries[i].path))
  }

  /** Packs may be as large as the configured size, or one maximal chunk. */
  function PackLimit(packSize: int): int {
    var limit := if packSize <= 0 then 33554432 else packSize;
    if limit < MAX_ENCODED then MAX_ENCODED else limit
  }

  predicate ValidLocation(id: ChunkId, l: Location, pack: nat, packSize: int) {
    && id.encrypted == l.encrypted
    && l.pack == pack
    && l.offset >= 0
    && 0 < l.length <= MAX_ENCODED
    && l.length <= PackLimit(packSize)
    && 0 < l.plainSize <= CHUNK_MAX
    && l.offset <= PackLimit(packSize) - l.length
  }

  /** The checks made on every index object before it is used. */
  predicate ValidSegment(seg: Segment, digest: nat, packSize: int) {
    && seg.version == FORMAT_VERSION
    && seg.pack == digest
    && seg.chunks != map[]
    && forall id :: id in seg.chunks ==> ValidLocation(id, seg.chunks[id], digest, packSize)
  }

  function ReadSegment(objects: Objects, digest: nat, packSize: int): Result<Segment, RepositoryError> {
    if IndexKey(digest) in objects && objects[IndexKey(digest)].IndexObject?
       && ValidSegment(objects[IndexKey(digest)].segment, digest, packSize)
    then Ok(objects[IndexKey(digest)].segment)
    else Err(InvalidIndex(digest))
  }

  function ReadSnapshot(c: Primitives, objects: Objects, name: string, expected: Option<nat>)
    : Result<Snapshot, RepositoryError>
  {
    if SnapshotKey(name) !in objects || !objects[SnapshotKey(name)].SnapshotObject? then Err(InvalidSnapshot)
    else
      var SnapshotObject(snapshot, checksum) := objects[SnapshotKey(name)];
      if expected.Some? && expected.value != checksum then Err(ChecksumMismatch)
      else if snapshot.encrypted && !c.hasKey then Err(KeyRequired)
      else if !ValidSnapshot(snapshot) then Err(InvalidSnapshot)
      else Ok(snapshot)
  }

  // ------------------------------------------------------------ index lookups

  function IndexDigests(objects: Objects): set<nat> {
    set k | k in objects && k.IndexKey? :: k.digest
  }

  function SegmentChunks(objects: Objects, digest: nat): map<ChunkId, Location> {
    if IndexKey(digest) in objects && objects[IndexKey(digest)].IndexObject?
    then objects[IndexKey(digest)].segment.chunks
    else map[]
  }

  ghost predicate Indexed(objects: Objects, id: ChunkId) {
    exists d :: id in SegmentChunks(objects, d)
  }

  /** The first index object, in key order, that mentions the chunk. */
  ghost predicate FirstHolder(objects: Objects, d: nat, id: ChunkId) {
    id in SegmentChunks(objects, d) && forall d' :: id in SegmentChunks(objects, d') ==> d <= d'
  }

  /** What reading all index objects in key order yields: the first mention of a chunk wins. */
  ghost predicate IsIndexOf(objects: Objects, locations: map<ChunkId, Location>) {
    && (forall id :: id in locations <==> Indexed(objects, id))
    && (forall id, d :: FirstHolder(objects, d, id) ==>
      id in locations && locations[id] == SegmentChunks(objects, d)[id])
  }

  lemma HolderExists(objects: Objects, id: ChunkId) returns (d: nat)
    requires Indexed(objects, id)
    ensures FirstHolder(objects, d, id)
  {
    var holders := set k | k in objects && k.IndexKey? && id in SegmentChunks(objects, k.digest) :: k.digest;
    var e :| id in SegmentChunks(objects, e);
    assert IndexKey(e) in objects;
    assert e in holders;
    d := Least(holders);
    forall d' | id in SegmentChunks(objects, d') ensures d <= d' {
      assert IndexKey(d') in objects;
      assert d' in holders;
    }
  }

  // ------------------------------------------------------------ reading chunks

  function ReadChunk(c: Primitives, objects: Objects, locations: map<ChunkId, Location>, id: ChunkId)
    : Result<Bytes, RepositoryError>
  {
    if id !in locations then Err(ChunkNotIndexed(id))
    else
      var l := locations[id];
      if PackKey(l.pack) !in objects || !objects[PackKey(l.pack)].PackObject? then Err(PackUnreadable(id))
      else
        var pack := objects[PackKey(l.pack)].bytes;
        if !(0 <= l.offset && 0 <= l.length && l.offset + l.length <= |pack|) then Err(PackUnreadable(id))
        else
          var decoded := c.decode(pack[l.offset..l.offset + l.length], l.compression, l.encrypted, id);
          if decoded.None? || (l.encrypted && !c.hasKey) then Err(ChunkCorrupt(id))
          else if |decoded.value| != l.plainSize then Err(ChunkCorrupt(id))
          else if IdOf(c, decoded.value, l.compression, l.encrypted) != id then Err(ChunkCorrupt(id))
          else Ok(decoded.value)
  }

  /** At this location is a form of these bytes that decodes, and their digest is the chunk's. */
  ghost predicate Holds(c: Primitives, objects: Objects, l: Location, id: ChunkId, raw: Bytes) {
    && PackKey(l.pack) in objects && objects[PackKey(l.pack)].PackObject?
    && var bytes := objects[PackKey(l.pack)].bytes;
    && 0 <= l.offset <= l.offset + l.length <= |bytes|
    && c.decode(bytes[l.offset..l.offset + l.length], l.compression, l.encrypted, id) == Some(raw)
    && |raw| == l.plainSize
    && c.chunkDigest(raw, l.compression, l.encrypted) == id.digest
    && l.encrypted == id.encrypted
    && (id.encrypted ==> c.hasKey)
  }

  /** In any store, sound or not, a chunk reads exactly if its location holds bytes of its digest. */
  lemma ReadsIffHeld(c: Primitives, objects: Objects, locations: map<ChunkId, Location>, id: ChunkId)
    ensures ReadChunk(c, objects, locations, id).Ok? <==>
      id in locations && exists raw :: Holds(c, objects, locations[id], id, raw)
    ensures var r := ReadChunk(c, objects, locations, id);
      r.Ok? ==> Holds(c, objects, locations[id], id, r.value)
  {
    var r := ReadChunk(c, objects, locations, id);
    if r.Ok? {
      assert Holds(c, objects, locations[id], id, r.value);
    }
  }

  /** Whatever a store holds, without collisions a chunk reads as the bytes it was named after, or not at all. */
  lemma ReadsAreGenuine(c: Primitives, objects: Objects, locations: map<ChunkId, Location>, raw: Bytes,
                        k: Compression, e: bool)
    requires CollisionFree(c)
    ensures var r := ReadChunk(c, objects, locations, IdOf(c, raw, k, e)); r.Ok? ==> r.value == raw
  {
    var id := IdOf(c, raw, k, e);
    ReadsIffHeld(c, objects, locations, id);
  }

  // ------------------------------------------------------------ the invariant

  function ChunksOf(s: Snapshot): set<ChunkId> {
    set i, j | 0 <= i < |s.entries| && 0 <= j < |s.entries[i].chunks| :: s.entries[i].chunks[j]
  }

  /** The chunks some stored snapshot still needs. */
  ghost predicate Live(objects: Objects, id: ChunkId) {
    exists name :: SnapshotKey(name) in objects && objects[SnapshotKey(name)].SnapshotObject?
                   && id in ChunksOf(objects[SnapshotKey(name)].snapshot)
  }

  /** `us` is how pack `d` with these bytes and this index was made. */
  ghost predicate MadeFrom(c: Primitives, universe: iset<EncodedChunk>, packSize: int,
                           us: seq<EncodedChunk>, d: nat, bytes: Bytes, segment: Segment)
  {
    && us != [] && DistinctIds(us) && AllIn(us, universe)
    && (forall i :: 0 <= i < |us| ==> WellEncoded(c, us[i]))
    && bytes == PackBytes(us) && d == c.packDigest(bytes)
    && |bytes| <= PackLimit(packSize)
    && segment == Segment(FORMAT_VERSION, d, Layout(us, d))
  }

  ghost predicate PackIntact(c: Primitives, universe: iset<EncodedChunk>, packSize: int, objects: Objects, d: nat) {
    && IndexKey(d) in objects && objects[IndexKey(d)].IndexObject?
    && PackKey(d) in objects && objects[PackKey(d)].PackObject?
    && exists us :: MadeFrom(c, universe, packSize, us, d, objects[PackKey(d)].bytes, objects[IndexKey(d)].segment)
  }

  ghost predicate SnapshotIntact(c: Primitives, objects: Objects, name: string) {
    && ReadSnapshot(c, objects, name, None).Ok?
    && forall id :: id in ChunksOf(objects[SnapshotKey(name)].snapshot) ==> Indexed(objects, id)
  }

  /**
   Every index object describes an existing pack made of exactly the chunks it lists, and
   every stored snapshot is readable and only mentions indexed chunks. Packs without an
   index object may hold anything.
   */
  ghost predicate Sound(c: Primitives, universe: iset<EncodedChunk>, packSize: int, objects: Objects) {
    && (forall d :: IndexKey(d) in objects ==> PackIntact(c, universe, packSize, objects, d))
    && (forall d :: PackKey(d) in objects ==> objects[PackKey(d)].PackObject?)
    && (forall name :: SnapshotKey(name) in objects ==> SnapshotIntact(c, objects, name))
  }

  /** What an intact pack offers for one of its chunks. */
  lemma IntactChunk(c: Primitives, universe: iset<EncodedChunk>, packSize: int, objects: Objects,
                    d: nat, id: ChunkId) returns (u: EncodedChunk)
    requires PackIntact(c, universe, packSize, objects, d) && id in SegmentChunks(objects, d)
    ensures WellEncoded(c, u) && u.id == id
    ensures var l := SegmentChunks(objects, d)[id];
      && l.pack == d && l.compression == u.compression && l.encrypted == u.encrypted
      && l.plainSize == |u.raw| && l.length == |u.encoded|
      && 0 <= l.offset && l.offset + l.length <= |objects[PackKey(d)].bytes| <= PackLimit(packSize)
      && objects[PackKey(d)].bytes[l.offset..l.offset + l.length] == u.encoded
  {
    hide Layout, Join, PackBytes;
    var us: seq<EncodedChunk> :| MadeFrom(c, universe, packSize, us, d, objects[PackKey(d)].bytes,
        objects[IndexKey(d)].segment);
    LayoutKeys(us, d);
    var i :| 0 <= i < |us| && us[i].id == id;
    LayoutRegion(us, d, i);
    u := us[i];
  }

  /** Writer and reader agree: every segment a writer leaves behind passes the reader's checks. */
  lemma WrittenSegmentsAreValid(c: Primitives, universe: iset<EncodedChunk>, packSize: int, objects: Objects, d: nat)
    requires PackIntact(c, universe, packSize, objects, d)
    ensures ReadSegment(objects, d, packSize) == Ok(objects[IndexKey(d)].segment)
  {
    var seg := objects[IndexKey(d)].segment;
    var us: seq<EncodedChunk> :| MadeFrom(c, universe, packSize, us, d, objects[PackKey(d)].bytes, seg);
    LayoutKeys(us, d);
    assert us[0].id in seg.chunks;
    forall id | id in seg.chunks ensures ValidLocation(id, seg.chunks[id], d, packSize) {
      var u := IntactChunk(c, universe, packSize, objects, d, id);
    }
  }

  /**
   Whatever else is stored, an indexed chunk reads back as the bytes it was made from:
   all the checks of `ReadChunk` succeed, and the digest pins the bytes down.
   */
  lemma IndexedChunksReadBack(c: Primitives, universe: iset<EncodedChunk>, packSize: int, objects: Objects,
                              locations: map<ChunkId, Location>, raw: Bytes, k: Compression, e: bool)
    requires Lawful(c) && Sound(c, universe, packSize, objects) && IsIndexOf(objects, locations)
    requires Indexed(objects, IdOf(c, raw, k, e))
    ensures ReadChunk(c, objects, locations, IdOf(c, raw, k, e)) == Ok(raw)
  {
    hide Layout, PackBytes, Indexed, ReadSnapshot, SnapshotIntact;
    var id := IdOf(c, raw, k, e);
    var d := HolderExists(objects, id);
    assert IndexKey(d) in objects;
    var u := IntactChunk(c, universe, packSize, objects, d, id);
    assert c.chunkDigest(u.raw, u.compression, u.encrypted) == c.chunkDigest(raw, k, e);
  }
}
