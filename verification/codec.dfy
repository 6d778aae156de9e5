/**
 The vocabulary of the CDC repository format: chunk ids, encoded chunks, and the
 library functions (SHA-256, HMAC, gzip, zstd, AES-GCM) the format is built on.
 Those functions are parameters; `Lawful` says what is expected of them.
 */
module Codec {
  import opened ByteStrings

  const CHUNK_MAX: nat := 4194304        // 4 << 20
  const MAX_ENCODED: nat := 4456448      // CHUNK_MAX + (256 << 10)
  const FORMAT_VERSION: nat := 1

  datatype Compression = Uncompressed | Gzip | Zstd

  /** "p-" or "e-" followed by a digest. */
  datatype ChunkId = ChunkId(encrypted: bool, digest: nat)

  /** `nonce` stands for the random bytes drawn by an encryption. */
  datatype Primitives = Primitives(
    chunkDigest: (Bytes, Compression, bool) -> nat,
    packDigest: Bytes -> nat,
    encode: (Bytes, Compression, bool, ChunkId, nat) -> Bytes,
    decode: (Bytes, Compression, bool, ChunkId) -> Option<Bytes>,
    hasKey: bool)

  function IdOf(c: Primitives, raw: Bytes, compression: Compression, encrypted: bool): ChunkId {
    ChunkId(encrypted, c.chunkDigest(raw, compression, encrypted))
  }

  /** No digest collisions: the digest covers the compression, the mode and the bytes. */
  ghost predicate CollisionFree(c: Primitives) {
    && (forall r, k, e, r', k', e' ::
          c.chunkDigest(r, k, e) == c.chunkDigest(r', k', e') ==> r == r' && k == k' && e == e')
    && (forall p, p' :: c.packDigest(p) == c.packDigest(p') ==> p == p')
  }

  /** Decoding undoes encoding, and encoding a legal chunk stays within the size bound. */
  ghost predicate Faithful(c: Primitives) {
    forall r, k, e, n {:trigger c.encode(r, k, e, IdOf(c, r, k, e), n)} :: (e ==> c.hasKey) ==>
      var x := c.encode(r, k, e, IdOf(c, r, k, e), n);
      && c.decode(x, k, e, IdOf(c, r, k, e)) == Some(r)
      && (0 < |r| <= CHUNK_MAX ==> 0 < |x| <= MAX_ENCODED)
      && (k == Uncompressed && !e ==> x == r)
  }

  ghost predicate Lawful(c: Primitives) {
    CollisionFree(c) && Faithful(c)
  }

  /** A chunk as it sits in a pack, with what it stands for. */
  datatype EncodedChunk = EncodedChunk(
    id: ChunkId, raw: Bytes, compression: Compression, encrypted: bool, encoded: Bytes)

  ghost predicate WellEncoded(c: Primitives, u: EncodedChunk) {
    && u.id == IdOf(c, u.raw, u.compression, u.encrypted)
    && (u.encrypted ==> c.hasKey)
    && 0 < |u.raw| <= CHUNK_MAX
    && 0 < |u.encoded| <= MAX_ENCODED
    && c.decode(u.encoded, u.compression, u.encrypted, u.id) == Some(u.raw)
  }

  function Encodings(us: seq<EncodedChunk>): seq<Bytes> {
    seq(|us|, i requires 0 <= i < |us| => us[i].encoded)
  }

  /** The bytes of a pack holding these chunks. */
  function PackBytes(us: seq<EncodedChunk>): Bytes {
    Join(Encodings(us))
  }

  function Ids(us: seq<EncodedChunk>): set<ChunkId> {
    set u | u in us :: u.id
  }

  ghost predicate DistinctIds(us: seq<EncodedChunk>) {
    forall i, j :: 0 <= i < j < |us| ==> us[i].id != us[j].id
  }

  ghost predicate AllIn(us: seq<EncodedChunk>, universe: iset<EncodedChunk>) {
    forall u :: u in us ==> u in universe
  }

  /** Pack bytes determine the chunks they were built from. */
  ghost predicate UniquelyDecodable(universe: iset<EncodedChunk>) {
    forall us, vs ::
      AllIn(us, universe) && AllIn(vs, universe) && PackBytes(us) == PackBytes(vs) ==> us == vs
  }

  lemma PackBytesAppend(us: seq<EncodedChunk>, vs: seq<EncodedChunk>)
    ensures PackBytes(us + vs) == PackBytes(us) + PackBytes(vs)
  {
    assert Encodings(us + vs) == Encodings(us) + Encodings(vs);
    JoinAppend(Encodings(us), Encodings(vs));
  }

  lemma PackBytesSnoc(us: seq<EncodedChunk>, u: EncodedChunk)
    ensures PackBytes(us + [u]) == PackBytes(us) + u.encoded
  {
    PackBytesAppend(us, [u]);
    SinglePack(u);
  }

  lemma SinglePack(u: EncodedChunk)
    ensures PackBytes([u]) == u.encoded
  {
    assert Encodings([u]) == [u.encoded];
    assert Join([u.encoded]) == u.encoded;
  }

  lemma PackBytesCons(u: EncodedChunk, us: seq<EncodedChunk>)
    ensures PackBytes([u] + us) == u.encoded + PackBytes(us)
  {
    PackBytesAppend([u], us);
    SinglePack(u);
  }

  /** No stored form of a chunk is empty or the beginning of another one's. */
  ghost predicate PrefixFree(universe: iset<EncodedChunk>) {
    forall u, v :: u in universe && v in universe ==> u.encoded != [] && (u.encoded <= v.encoded ==> u == v)
  }

  lemma {:induction false} SamePackSameChunks(universe: iset<EncodedChunk>, us: seq<EncodedChunk>,
                                              vs: seq<EncodedChunk>)
    requires PrefixFree(universe) && AllIn(us, universe) && AllIn(vs, universe) && PackBytes(us) == PackBytes(vs)
    ensures us == vs
  {
    hide PackBytes;
    NoChunks();
    if us != [] {
      PackBytesCons(us[0], us[1..]);
      assert us == [us[0]] + us[1..];
    }
    if vs != [] {
      PackBytesCons(vs[0], vs[1..]);
      assert vs == [vs[0]] + vs[1..];
    }
    if us != [] && vs != [] {
      OneIsPrefix(us[0].encoded, vs[0].encoded, PackBytes(us));
      assert us[0] in universe && vs[0] in universe;
      SameRest(us[0].encoded, PackBytes(us[1..]), PackBytes(vs[1..]));
      SamePackSameChunks(universe, us[1..], vs[1..]);
    }
  }

  lemma NoChunks()
    ensures PackBytes([]) == []
  {
  }

  lemma OneIsPrefix(a: Bytes, b: Bytes, all: Bytes)
    requires a <= all && b <= all
    ensures a <= b || b <= a
  {
  }

  lemma SameRest(a: Bytes, x: Bytes, y: Bytes)
    ensures a + x == a + y ==> x == y
  {
    assert (a + x)[|a|..] == x && (a + y)[|a|..] == y;
  }

  /** Self-delimiting encodings meet the hypothesis: it is enough that none begins with another. */
  lemma PrefixFreeDecodes(universe: iset<EncodedChunk>)
    requires PrefixFree(universe)
    ensures UniquelyDecodable(universe)
  {
    forall us, vs | AllIn(us, universe) && AllIn(vs, universe) && PackBytes(us) == PackBytes(vs) ensures us == vs {
      SamePackSameChunks(universe, us, vs);
    }
  }
}
