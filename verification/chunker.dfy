/**
 Content-defined chunking: a greedy specification over a whole buffer, the locality of
 the rolling hash, and the streaming splitter that refines the specification.
 */
module Chunker {
  import opened ByteStrings

  // The hash is a uint64; masking with (1 << k) - 1 is taking the remainder by 1 << k.
  const WRAP: nat := 0x1_0000_0000_0000_0000
  const SMALL_MODULUS: nat := 2097152     // 1 << 21
  const LARGE_MODULUS: nat := 524288      // 1 << 19
  const READ_SIZE: nat := 262144          // 256 << 10

  datatype Params = Params(
    minSize: nat, avgSize: nat, maxSize: nat, gear: seq<nat>)

  predicate ValidParams(p: Params) {
    |p.gear| == 256 && 0 < p.minSize < p.maxSize
  }

  // ------------------------------------------------------------ specification

  /** The gear hash of a byte string, modulo 2^64. */
  function Gear(gear: seq<nat>, hash: nat, b: Bytes): nat
    requires |gear| == 256
  {
    if b == [] then hash else (2 * Gear(gear, hash, b[..|b| - 1]) + gear[b[|b| - 1]]) % WRAP
  }

  /** Before the average size the stricter mask applies. */
  predicate Masked(p: Params, index: nat, hash: nat) {
    hash % (if index < p.avgSize then SMALL_MODULUS else LARGE_MODULUS) == 0
  }

  /** The hash starts at `minSize`; a chunk may end right after a byte where it masks to zero. */
  predicate Hit(p: Params, data: Bytes, index: nat)
    requires ValidParams(p) && p.minSize <= index < |data|
  {
    Masked(p, index, Gear(p.gear, 0, data[p.minSize..index + 1]))
  }

  function Limit(p: Params, data: Bytes): nat {
    if |data| > p.maxSize then p.maxSize else |data|
  }

  /** The first hit at or after `index`, or the limit. */
  function FirstHit(p: Params, data: Bytes, index: nat): (h: nat)
    requires ValidParams(p) && p.minSize <= index <= Limit(p, data)
    ensures index <= h <= Limit(p, data)
    ensures forall j :: index <= j < h ==> !Hit(p, data, j)
    ensures h < Limit(p, data) ==> Hit(p, data, h)
    decreases Limit(p, data) - index
  {
    if index == Limit(p, data) || Hit(p, data, index) then index else FirstHit(p, data, index + 1)
  }

  /** Where the first chunk of a complete buffer ends. */
  function Cut(p: Params, data: Bytes): (cut: nat)
    requires ValidParams(p) && data != []
    ensures 0 < cut <= |data| && cut <= p.maxSize
    ensures cut < |data| ==> p.minSize < cut
  {
    if |data| < p.minSize then |data|
    else
      var h := FirstHit(p, data, p.minSize);
      if h < Limit(p, data) then h + 1 else Limit(p, data)
  }

  /** The chunks of a complete buffer. */
  function Chunks(p: Params, data: Bytes): seq<Bytes>
    requires ValidParams(p)
  {
    if data == [] then [] else [data[..Cut(p, data)]] + Chunks(p, data[Cut(p, data)..])
  }

  /** The chunks are the data, and their sizes are as configured; only the last may be short. */
  lemma {:induction false} ChunksPartition(p: Params, data: Bytes)
    requires ValidParams(p)
    ensures Join(Chunks(p, data)) == data
    ensures forall i :: 0 <= i < |Chunks(p, data)| ==> 1 <= |Chunks(p, data)[i]| <= p.maxSize
    ensures forall i :: 0 <= i < |Chunks(p, data)| - 1 ==> p.minSize + 1 <= |Chunks(p, data)[i]|
  {
    if data != [] {
      var cut := Cut(p, data);
      ChunksPartition(p, data[cut..]);
      assert data == data[..cut] + data[cut..];
      var all, rest := Chunks(p, data), Chunks(p, data[cut..]);
      assert all[1..] == rest;
      forall i | 0 <= i < |all| - 1 ensures p.minSize + 1 <= |all[i]| {
        if i == 0 {
          assert rest != [];
        } else {
          assert all[i] == rest[i - 1];
        }
      }
    }
  }

  /** `n` is the end of some chunk (or the beginning of the data). */
  ghost predicate Boundary(p: Params, data: Bytes, n: nat)
    requires ValidParams(p)
  {
    exists k :: 0 <= k <= |Chunks(p, data)| && |Join(Chunks(p, data)[..k])| == n
  }

  lemma FirstChunk(p: Params, data: Bytes)
    requires ValidParams(p) && data != []
    ensures var cut := Cut(p, data);
      0 < cut <= |data| && Chunks(p, data) == [data[..cut]] + Chunks(p, data[cut..])
  {
  }

  /** Chunking restarts at every boundary as if the data began there. */
  lemma {:induction false} ChunksRestart(p: Params, data: Bytes, k: nat) returns (n: nat)
    requires ValidParams(p) && k <= |Chunks(p, data)|
    ensures n == |Join(Chunks(p, data)[..k])| <= |data|
    ensures Chunks(p, data)[k..] == Chunks(p, data[n..])
    decreases k
  {
    NothingToChunk(p);
    assert Join([]) == [];
    hide Cut, FirstHit, Hit, Chunks, Join;
    if k == 0 {
      n := 0;
      assert Chunks(p, data)[..0] == [] && data[0..] == data;
    } else {
      FirstChunk(p, data);
      var cut := Cut(p, data);
      var later := data[cut..];
      var m := ChunksRestart(p, later, k - 1);
      n := cut + m;
      ConsSlices(data[..cut], Chunks(p, later), k);
      JoinCons(data[..cut], Chunks(p, later)[..k - 1]);
      assert later[m..] == data[n..];
    }
  }

  /** Two streams that cut at the same place of a shared suffix agree from there on. */
  lemma Resynchronization(p: Params, before: Bytes, before': Bytes, suffix: Bytes)
    requires ValidParams(p)
    requires Boundary(p, before + suffix, |before|) && Boundary(p, before' + suffix, |before'|)
    ensures exists k, k' :: 0 <= k <= |Chunks(p, before + suffix)| && 0 <= k' <= |Chunks(p, before' + suffix)|
              && Chunks(p, before + suffix)[k..] == Chunks(p, before' + suffix)[k'..] == Chunks(p, suffix)
              && |Join(Chunks(p, before + suffix)[..k])| == |before|
              && |Join(Chunks(p, before' + suffix)[..k'])| == |before'|
  {
    var k :| 0 <= k <= |Chunks(p, before + suffix)| && |Join(Chunks(p, before + suffix)[..k])| == |before|;
    var k' :| 0 <= k' <= |Chunks(p, before' + suffix)| && |Join(Chunks(p, before' + suffix)[..k'])| == |before'|;
    var n := ChunksRestart(p, before + suffix, k);
    var n' := ChunksRestart(p, before' + suffix, k');
    assert (before + suffix)[|before|..] == suffix && (before' + suffix)[|before'|..] == suffix;
  }

  // ------------------------------------------------------------ locality of the hash

  /** A difference between two hashes after `n` more bytes: doubled once per byte. */
  function Doubled(d: int, n: nat): int {
    if n == 0 then d else 2 * Doubled(d, n - 1)
  }

  /** Up to multiples of 2^64, hashing the same bytes from two states doubles their difference. */
  lemma {:induction false} DifferenceDoubles(gear: seq<nat>, h: nat, h': nat, b: Bytes)
    requires |gear| == 256
    ensures (Gear(gear, h', b) - Gear(gear, h, b) - Doubled(h' - h, |b|)) % WRAP == 0
  {
    if b != [] {
      var init, g := b[..|b| - 1], gear[b[|b| - 1]];
      DifferenceDoubles(gear, h, h', init);
      var x, x' := Gear(gear, h, init), Gear(gear, h', init);
      WrappedStep(x, x', Doubled(h' - h, |init|), g);
    }
  }

  lemma WrappedStep(x: int, x': int, d: int, g: int)
    requires (x' - x - d) % WRAP == 0
    ensures ((2 * x' + g) % WRAP - (2 * x + g) % WRAP - 2 * d) % WRAP == 0
  {
    var q := (x' - x - d) / WRAP;
    var r, r' := (2 * x + g) / WRAP, (2 * x' + g) / WRAP;
    assert (2 * x' + g) % WRAP - (2 * x + g) % WRAP - 2 * d == WRAP * (2 * q - r' + r);
    MultipleOfWrap(2 * q - r' + r);
  }

  lemma MultipleOfWrap(k: int)
    ensures (WRAP * k) % WRAP == 0
  {
  }

  lemma DoubledThrice(d: int, n: nat)
    ensures Doubled(d, n + 3) == 8 * Doubled(d, n)
  {
    assert Doubled(d, n + 1) == 2 * Doubled(d, n);
    assert Doubled(d, n + 2) == 4 * Doubled(d, n);
  }

  lemma DoubledLowBits(d: int)
    ensures Doubled(d, 21) == SMALL_MODULUS * d
    ensures Doubled(d, 19) == LARGE_MODULUS * d
  {
    DoubledThrice(d, 0);
    DoubledThrice(d, 3);
    DoubledThrice(d, 6);
    DoubledThrice(d, 9);
    DoubledThrice(d, 12);
    DoubledThrice(d, 15);
    DoubledThrice(d, 18);
    assert Doubled(d, 19) == 2 * Doubled(d, 18);
  }

  lemma SameRemainder(x: int, y: int, k: int)
    ensures y == x + SMALL_MODULUS * k ==> x % SMALL_MODULUS == y % SMALL_MODULUS
    ensures y == x + LARGE_MODULUS * k ==> x % LARGE_MODULUS == y % LARGE_MODULUS
  {
  }

  lemma WindowForgets(gear: seq<nat>, h: nat, h': nat, b: Bytes)
    requires |gear| == 256
    ensures |b| == 21 ==> Gear(gear, h, b) % SMALL_MODULUS == Gear(gear, h', b) % SMALL_MODULUS
    ensures |b| == 19 ==> Gear(gear, h, b) % LARGE_MODULUS == Gear(gear, h', b) % LARGE_MODULUS
  {
    DifferenceDoubles(gear, h, h', b);
    DoubledLowBits(h' - h);
    var x, y, e := Gear(gear, h, b), Gear(gear, h', b), Doubled(h' - h, |b|);
    RemainderOfDifference(x, y, e, h' - h);
  }

  lemma RemainderOfDifference(x: int, y: int, e: int, d: int)
    requires (y - x - e) % WRAP == 0
    ensures e == SMALL_MODULUS * d ==> x % SMALL_MODULUS == y % SMALL_MODULUS
    ensures e == LARGE_MODULUS * d ==> x % LARGE_MODULUS == y % LARGE_MODULUS
  {
    var q := (y - x - e) / WRAP;
    assert y == x + e + WRAP * q;
    SameRemainder(x, y, d + 8796093022208 * q);
    SameRemainder(x, y, d + 35184372088832 * q);
  }

  lemma {:induction false} GearSplits(gear: seq<nat>, hash: nat, front: Bytes, back: Bytes)
    requires |gear| == 256
    ensures Gear(gear, hash, front + back) == Gear(gear, Gear(gear, hash, front), back)
  {
    if back == [] {
      assert front + back == front;
    } else {
      GearSplits(gear, hash, front, back[..|back| - 1]);
      assert (front + back)[..|front + back| - 1] == front + back[..|back| - 1];
    }
  }

  /**
   The masked hash depends on nothing but the last 21 (small mask) or 19 (large mask)
   bytes: not on the state before them, and not on what was hashed in between.
   */
  lemma HashIsLocal(gear: seq<nat>, h: nat, h': nat, front: Bytes, front': Bytes, b: Bytes)
    requires |gear| == 256
    ensures |b| >= 21 ==> Gear(gear, h, front + b) % SMALL_MODULUS == Gear(gear, h', front' + b) % SMALL_MODULUS
    ensures |b| >= 19 ==> Gear(gear, h, front + b) % LARGE_MODULUS == Gear(gear, h', front' + b) % LARGE_MODULUS
  {
    hide Gear;
    if |b| >= 21 { LastBytesDecide(gear, h, h', front, front', b, 21); }
    if |b| >= 19 { LastBytesDecide(gear, h, h', front, front', b, 19); }
  }

  lemma LastBytesDecide(gear: seq<nat>, h: nat, h': nat, front: Bytes, front': Bytes, b: Bytes, n: nat)
    requires |gear| == 256 && n <= |b|
    ensures n == 21 ==> Gear(gear, h, front + b) % SMALL_MODULUS == Gear(gear, h', front' + b) % SMALL_MODULUS
    ensures n == 19 ==> Gear(gear, h, front + b) % LARGE_MODULUS == Gear(gear, h', front' + b) % LARGE_MODULUS
  {
    hide Gear;
    var cut := |b| - n;
    assert front + b == (front + b[..cut]) + b[cut..] && front' + b == (front' + b[..cut]) + b[cut..];
    GearSplits(gear, h, front + b[..cut], b[cut..]);
    GearSplits(gear, h', front' + b[..cut], b[cut..]);
    WindowForgets(gear, Gear(gear, h, front + b[..cut]), Gear(gear, h', front' + b[..cut]), b[cut..]);
  }

  /** How many bytes decide whether a chunk may end at an index. */
  function Window(p: Params, index: nat): nat {
    if index < p.avgSize then 21 else 19
  }

  /**
   Whether a chunk may end after a byte depends on the bytes of the window up to it,
   wherever the chunk started, once that many were hashed.
   */
  lemma HitIsLocal(p: Params, data: Bytes, i: nat, data': Bytes, i': nat)
    requires ValidParams(p)
    requires i < p.avgSize <==> i' < p.avgSize
    requires p.minSize + Window(p, i) <= i + 1 <= |data| && p.minSize + Window(p, i) <= i' + 1 <= |data'|
    requires data[i + 1 - Window(p, i)..i + 1] == data'[i' + 1 - Window(p, i)..i' + 1]
    ensures Hit(p, data, i) == Hit(p, data', i')
  {
    hide Gear;
    var w := Window(p, i);
    var b := data[i + 1 - w..i + 1];
    var front, front' := data[p.minSize..i + 1 - w], data'[p.minSize..i' + 1 - w];
    assert data[p.minSize..i + 1] == front + b;
    assert data'[p.minSize..i' + 1] == front' + b;
    HashIsLocal(p.gear, 0, 0, front, front', b);
  }

  // ------------------------------------------------------------ where chunks end

  /** The sum of the hash constants of the bytes, each doubled once for every byte after its own. */
  ghost function Weighted(gear: seq<nat>, b: Bytes): int
    requires |gear| == 256
  {
    if b == [] then 0 else Doubled(gear[b[0]], |b| - 1) + Weighted(gear, b[1..])
  }

  lemma {:induction false} WeightedSnoc(gear: seq<nat>, b: Bytes, last: byte)
    requires |gear| == 256
    ensures Weighted(gear, b + [last]) == 2 * Weighted(gear, b) + gear[last]
  {
    if b == [] {
      assert (b + [last])[1..] == [];
    } else {
      assert (b + [last])[1..] == b[1..] + [last];
      WeightedSnoc(gear, b[1..], last);
    }
  }

  lemma WrappedTwice(w: int, g: int)
    ensures (2 * (w % WRAP) + g) % WRAP == (2 * w + g) % WRAP
  {
    var q := w / WRAP;
    assert 2 * (w % WRAP) + g == (2 * w + g) + WRAP * (-2 * q);
    WrapsAway(2 * w + g, -2 * q);
  }

  lemma WrapsAway(x: int, k: int)
    ensures (x + WRAP * k) % WRAP == x % WRAP
  {
  }

  /** The rolling hash is that sum in 64 bits. */
  lemma {:induction false} GearIsWeighted(gear: seq<nat>, b: Bytes)
    requires |gear| == 256
    ensures Gear(gear, 0, b) == Weighted(gear, b) % 18446744073709551616
  {
    hide Weighted;
    if b == [] {
      NothingWeighs(gear);
    } else {
      var init, last := b[..|b| - 1], b[|b| - 1];
      GearIsWeighted(gear, init);
      assert b == init + [last];
      WeightedSnoc(gear, init, last);
      WrappedTwice(Weighted(gear, init), gear[last]);
    }
  }

  lemma NothingWeighs(gear: seq<nat>)
    requires |gear| == 256
    ensures Weighted(gear, []) == 0
  {
  }

  /** The 64-bit hash from the minimum size up to `n` ends in 21 zero bits, past the average size in 19. */
  ghost predicate MayEnd(p: Params, data: Bytes, n: nat)
    requires ValidParams(p) && p.minSize < n <= |data|
  {
    Weighted(p.gear, data[p.minSize..n]) % 18446744073709551616 % (if n <= p.avgSize then 2097152 else 524288) == 0
  }

  /** The first place past the minimum size where a chunk may end, or else the end of the data or the maximum size. */
  ghost predicate EndsAt(p: Params, data: Bytes, n: nat)
    requires ValidParams(p)
  {
    && 0 < n <= |data| && n <= p.maxSize
    && (forall m :: p.minSize < m < n ==> !MayEnd(p, data, m))
    && (n < |data| && n < p.maxSize ==> p.minSize < n && MayEnd(p, data, n))
  }

  lemma HitEnds(p: Params, data: Bytes, index: nat)
    requires ValidParams(p) && p.minSize <= index < |data|
    ensures Hit(p, data, index) <==> MayEnd(p, data, index + 1)
  {
    GearIsWeighted(p.gear, data[p.minSize..index + 1]);
  }

  lemma CutEnds(p: Params, data: Bytes)
    requires ValidParams(p) && data != []
    ensures EndsAt(p, data, Cut(p, data))
  {
    hide Hit, MayEnd, Gear;
    var n := Cut(p, data);
    forall m | p.minSize < m <= n ensures Hit(p, data, m - 1) <==> MayEnd(p, data, m) {
      HitEnds(p, data, m - 1);
    }
  }

  lemma OneEnd(p: Params, data: Bytes, n: nat, n': nat)
    requires ValidParams(p) && EndsAt(p, data, n) && EndsAt(p, data, n')
    ensures n == n'
  {
    hide MayEnd;
  }

  /** Every chunk ends at the first place it may. */
  ghost predicate CutWell(p: Params, data: Bytes, chunks: seq<Bytes>)
    requires ValidParams(p)
  {
    forall k :: 0 <= k < |chunks| ==>
      |Join(chunks[..k])| <= |data| && EndsAt(p, data[|Join(chunks[..k])|..], |chunks[k]|)
  }

  lemma ChunksEndWell(p: Params, data: Bytes)
    requires ValidParams(p)
    ensures CutWell(p, data, Chunks(p, data))
  {
    hide Cut, EndsAt, Join, Hit, FirstHit;
    var all := Chunks(p, data);
    forall k | 0 <= k < |all| ensures |Join(all[..k])| <= |data| && EndsAt(p, data[|Join(all[..k])|..], |all[k]|) {
      var n := ChunksRestart(p, data, k);
      assert all[k..][0] == all[k];
      assert data[n..] != [];
      FirstChunk(p, data[n..]);
      CutEnds(p, data[n..]);
    }
  }

  lemma {:induction false} CutWellIsChunks(p: Params, data: Bytes, chunks: seq<Bytes>)
    requires ValidParams(p) && CutWell(p, data, chunks) && Join(chunks) == data
    ensures chunks == Chunks(p, data)
  {
    hide Cut, EndsAt, Hit, FirstHit;
    if chunks != [] {
      var first, rest := chunks[0], chunks[1..];
      assert chunks == [first] + rest;
      JoinCons(first, rest);
      assert Join(chunks[..0]) == [];
      assert data[0..] == data;
      assert EndsAt(p, data, |first|);
      EndIsInside(p, data, |first|);
      CutEnds(p, data);
      OneEnd(p, data, |first|, Cut(p, data));
      var later := data[|first|..];
      assert later == Join(rest);
      forall k | 0 <= k < |rest|
        ensures |Join(rest[..k])| <= |later| && EndsAt(p, later[|Join(rest[..k])|..], |rest[k]|)
      {
        assert chunks[..k + 1] == [first] + rest[..k];
        JoinCons(first, rest[..k]);
        assert data[|Join(chunks[..k + 1])|..] == later[|Join(rest[..k])|..];
        assert chunks[k + 1] == rest[k];
      }
      CutWellIsChunks(p, later, rest);
    }
  }

  lemma FewerCutWell(p: Params, data: Bytes)
    requires ValidParams(p)
    ensures forall emitted :: emitted <= Chunks(p, data) ==> CutWell(p, data, emitted)
  {
    hide EndsAt, Chunks;
    ChunksEndWell(p, data);
    forall emitted, k | emitted <= Chunks(p, data) && 0 <= k < |emitted|
      ensures |Join(emitted[..k])| <= |data| && EndsAt(p, data[|Join(emitted[..k])|..], |emitted[k]|)
    {
      assert emitted[..k] == Chunks(p, data)[..k] && emitted[k] == Chunks(p, data)[k];
    }
  }

  lemma EndIsInside(p: Params, data: Bytes, n: nat)
    requires ValidParams(p) && EndsAt(p, data, n)
    ensures 0 < n <= |data|
  {
  }

  /** Chunking is cutting the data into pieces that each end at the first place they may; there is no other way. */
  lemma ChunksEndFirst(p: Params, data: Bytes, chunks: seq<Bytes>)
    requires ValidParams(p)
    ensures chunks == Chunks(p, data) <==> Join(chunks) == data && CutWell(p, data, chunks)
  {
    hide Chunks, CutWell, Join;
    if chunks == Chunks(p, data) {
      ChunksPartition(p, data);
      ChunksEndWell(p, data);
    }
    if Join(chunks) == data && CutWell(p, data, chunks) {
      CutWellIsChunks(p, data, chunks);
    }
  }

  /** The cut search on a buffer that may still grow: it waits exactly while no end can be told. */
  lemma CutPointEnds(p: Params, data: Bytes, eof: bool)
    requires ValidParams(p) && data != []
    ensures var n := CutPoint(p, data, eof);
      if n > 0 then EndsAt(p, data, n)
      else !eof && |data| < p.maxSize && forall m :: p.minSize < m <= |data| ==> !MayEnd(p, data, m)
    ensures !eof && |data| < p.maxSize && (forall m :: p.minSize < m <= |data| ==> !MayEnd(p, data, m)) ==>
      CutPoint(p, data, eof) == 0
  {
    hide Hit, MayEnd, Gear;
    CutEnds(p, data);
    forall m | p.minSize < m <= |data| ensures Hit(p, data, m - 1) <==> MayEnd(p, data, m) {
      HitEnds(p, data, m - 1);
    }
    if p.minSize <= |data| <= p.maxSize && FirstHit(p, data, p.minSize) < |data| {
      HitEnds(p, data, FirstHit(p, data, p.minSize));
    }
  }

  // ------------------------------------------------------------ the splitter

  datatype ReadStatus = More | EndOfFile | ReadError

  /** One answer of a reader: some bytes, possibly together with the end or an error. */
  datatype ReadStep = ReadStep(bytes: Bytes, status: ReadStatus)

  datatype Outcome = Done | ReadFailed | EmitFailed | Cancelled | BufferedBytes(count: nat)

  /** Everything a reader delivers, up to its end or first error; running dry is the end. */
  function Content(steps: seq<ReadStep>): Bytes {
    if steps == [] then []
    else if steps[0].status == More then steps[0].bytes + Content(steps[1..])
    else steps[0].bytes
  }

  predicate Fails(steps: seq<ReadStep>) {
    steps != [] && (steps[0].status == ReadError || (steps[0].status == More && Fails(steps[1..])))
  }

  /** What the cut search answers on a buffer that may still grow; 0 means "read more". */
  function CutPoint(p: Params, data: Bytes, eof: bool): nat
    requires ValidParams(p)
  {
    if data == [] then 0
    else if eof || |data| >= p.maxSize then Cut(p, data)
    else if |data| < p.minSize then 0
    else
      var h := FirstHit(p, data, p.minSize);
      if h < |data| then h + 1 else 0
  }

  /** A cut found early is the cut of every longer buffer. */
  lemma CutIsStable(p: Params, data: Bytes, rest: Bytes)
    requires ValidParams(p) && CutPoint(p, data, false) > 0
    ensures data != [] && CutPoint(p, data, false) <= |data|
    ensures CutPoint(p, data, false) == Cut(p, data + rest)
  {
    var h, h' := FirstHit(p, data, p.minSize), FirstHit(p, data + rest, p.minSize);
    forall j | p.minSize <= j < Limit(p, data) ensures Hit(p, data, j) == Hit(p, data + rest, j) {
      assert data[p.minSize..j + 1] == (data + rest)[p.minSize..j + 1];
    }
    if h < Limit(p, data) {
      assert Hit(p, data + rest, h);
    }
  }

  lemma NextChunk(p: Params, pending: Bytes, rest: Bytes, eof: bool)
    requires ValidParams(p) && CutPoint(p, pending, eof) > 0 && (eof ==> rest == [])
    ensures CutPoint(p, pending, eof) <= |pending|
    ensures var cut := CutPoint(p, pending, eof);
      Chunks(p, pending + rest) == [pending[..cut]] + Chunks(p, pending[cut..] + rest)
  {
    var cut := CutPoint(p, pending, eof);
    if eof {
      assert pending + rest == pending && pending[cut..] + rest == pending[cut..];
    } else {
      CutIsStable(p, pending, rest);
      assert (pending + rest)[..cut] == pending[..cut];
      assert (pending + rest)[cut..] == pending[cut..] + rest;
    }
  }

  lemma EmitNext(p: Params, all: seq<Bytes>, emitted: seq<Bytes>, pending: Bytes, rest: Bytes, eof: bool)
    requires ValidParams(p) && CutPoint(p, pending, eof) > 0 && (eof ==> rest == [])
    requires all == emitted + Chunks(p, pending + rest)
    ensures var cut := CutPoint(p, pending, eof);
      cut <= |pending| && all == (emitted + [pending[..cut]]) + Chunks(p, pending[cut..] + rest)
  {
    NextChunk(p, pending, rest, eof);
  }

  lemma NothingToChunk(p: Params)
    requires ValidParams(p)
    ensures Chunks(p, []) == []
  {
  }

  lemma GearNothing(gear: seq<nat>)
    requires |gear| == 256
    ensures Gear(gear, 0, []) == 0
  {
  }

  lemma GearStep(gear: seq<nat>, data: Bytes, from: nat, index: nat)
    requires |gear| == 256 && from <= index < |data|
    ensures Gear(gear, 0, data[from..index + 1]) == (2 * Gear(gear, 0, data[from..index]) + gear[data[index]]) % WRAP
  {
    var longer := data[from..index + 1];
    assert longer[..|longer| - 1] == data[from..index] && longer[|longer| - 1] == data[index];
  }

  /** What one read step contributes to the content still to come. */
  lemma ContentStep(reader: seq<ReadStep>, pos: nat)
    requires pos <= |reader|
    ensures pos == |reader| ==> Content(reader[pos..]) == [] && !Fails(reader[pos..])
    ensures pos < |reader| && reader[pos].status == More ==>
      Content(reader[pos..]) == reader[pos].bytes + Content(reader[pos + 1..])
          && Fails(reader[pos..]) == Fails(reader[pos + 1..])
    ensures pos < |reader| && reader[pos].status != More ==>
      Content(reader[pos..]) == reader[pos].bytes && (Fails(reader[pos..]) <==> reader[pos].status == ReadError)
  {
    if pos < |reader| {
      assert reader[pos..][1..] == reader[pos + 1..];
    }
  }

  class ContentDefinedChunker {
    const p: Params

    ghost predicate Valid() {
      ValidParams(p)
    }

    /** The configured sizes, with any table of 256 hash constants. */
    constructor (gear: seq<nat>)
      requires |gear| == 256
      ensures Valid() && p == Params(524288, 1048576, 4194304, gear)
    {
      p := Params(524288, 1048576, 4194304, gear);
    }

    method FindCutPoint(data: array<byte>, len: nat, eof: bool) returns (cut: nat)
      requires Valid() && 0 < len <= data.Length
      ensures cut == CutPoint(p, data[..len], eof)
      ensures cut > 0 ==> EndsAt(p, data[..len], cut)
      ensures cut == 0 <==> !eof && len < p.maxSize && forall m :: p.minSize < m <= len ==> !MayEnd(p, data[..len], m)
    {
      hide Gear, MayEnd, EndsAt;
      ghost var buffer := data[..len];
      CutPointEnds(p, buffer, eof);
      if len < p.minSize {
        return if eof then len else 0;
      }
      var limit := if len > p.maxSize then p.maxSize else len;
      var hash: nat := 0;
      var index := p.minSize;
      GearNothing(p.gear);
      assert buffer[p.minSize..index] == [];
      while index < limit
        invariant p.minSize <= index <= limit == Limit(p, buffer)
        invariant hash == Gear(p.gear, 0, buffer[p.minSize..index])
        invariant FirstHit(p, buffer, p.minSize) == FirstHit(p, buffer, index)
      {
        GearStep(p.gear, buffer, p.minSize, index);
        hash := (2 * hash + p.gear[data[index]]) % WRAP;
        if Masked(p, index, hash) {
          assert Hit(p, buffer, index);
          return index + 1;
        }
        index := index + 1;
      }
      if len >= p.maxSize {
        return p.maxSize;
      }
      return if eof then len else 0;
    }

    /** Emits every chunk that is decided, shifting the rest to the front of the buffer. */
    method Drain(pending: array<byte>, length: nat, eof: bool, sofar: seq<Bytes>, firstCheck: nat,
                 cancelled: nat -> bool, emitFails: nat -> bool, ghost rest: Bytes)
      returns (stop: Option<Outcome>, len: nat, emitted: seq<Bytes>, checks: nat)
      requires Valid() && length <= pending.Length && (eof ==> rest == [])
      modifies pending
      ensures len <= pending.Length
      ensures sofar <= emitted
      ensures sofar + Chunks(p, old(pending[..length]) + rest) == emitted + Chunks(p, pending[..len] + rest)
      ensures stop == None ==> if eof then len == 0 else len < p.maxSize
      ensures stop == None || (stop == Some(Cancelled) && exists k :: cancelled(k))
              || (stop == Some(EmitFailed) && exists k :: emitFails(k))
    {
      hide Cut, FirstHit, Hit, Gear, Chunks;
      len, emitted, checks := length, sofar, firstCheck;
      ghost var all := sofar + Chunks(p, pending[..length] + rest);
      while len > 0
        invariant len <= pending.Length && sofar <= emitted
        invariant all == emitted + Chunks(p, pending[..len] + rest)
      {
        if cancelled(checks) {
          return Some(Cancelled), len, emitted, checks;
        }
        checks := checks + 1;
        var cut := FindCutPoint(pending, len, eof);
        if cut == 0 {
          break;
        }
        ghost var buffer := pending[..len];
        EmitNext(p, all, emitted, buffer, rest, eof);
        if emitFails(|emitted|) {
          return Some(EmitFailed), len, emitted, checks;
        }
        assert pending[..cut] == buffer[..cut] && pending[cut..len] == buffer[cut..];
        emitted := emitted + [pending[..cut]];
        Shift(pending, len, cut);
        len := len - cut;
      }
      stop := None;
    }

    /**
     Reads to the end, emitting chunks as soon as they are decided. `cancelled` and
     `emitFails` say at which check, or which chunk, the context or the callback gives up.
     The buffer is allocated once: every write into it is in bounds.
     */
    method Split(reader: seq<ReadStep>, cancelled: nat -> bool, emitFails: nat -> bool)
      returns (outcome: Outcome, emitted: seq<Bytes>)
      requires Valid()
      requires forall i :: 0 <= i < |reader| ==> |reader[i].bytes| <= READ_SIZE
      ensures emitted <= Chunks(p, Content(reader)) && CutWell(p, Content(reader), emitted)
      ensures outcome == Done ==> emitted == Chunks(p, Content(reader)) && !Fails(reader)
      ensures outcome == ReadFailed ==> Fails(reader)
      ensures !outcome.BufferedBytes?
      ensures (forall k :: !cancelled(k)) && (forall k :: !emitFails(k)) ==>
                outcome == if Fails(reader) then ReadFailed else Done
    {
      hide Cut, FirstHit, Hit, Gear, Chunks, Content, Fails, CutPoint, CutWell;
      ChunksEndWell(p, Content(reader));
      FewerCutWell(p, Content(reader));
      NothingToChunk(p);
      var pending := new byte[p.maxSize + READ_SIZE](_ => 0);
      var len: nat, pos: nat, checks: nat := 0, 0, 0;
      emitted := [];
      assert pending[..len] + Content(reader) == Content(reader);
      assert reader[pos..] == reader;
      while true
        invariant pos <= |reader| && len < p.maxSize && pending.Length == p.maxSize + READ_SIZE
        invariant Fails(reader) == Fails(reader[pos..])
        invariant Chunks(p, Content(reader)) == emitted + Chunks(p, pending[..len] + Content(reader[pos..]))
        decreases |reader| - pos
      {
        var step := if pos < |reader| then reader[pos] else ReadStep([], EndOfFile);
        ghost var rest := if step.status == More then Content(reader[pos + 1..]) else [];
        ghost var before := pending[..len];
        ContentStep(reader, pos);
        assert before + Content(reader[pos..]) == before + step.bytes + rest;
        Fill(pending, len, step.bytes);
        len := len + |step.bytes|;
        var eof := step.status == EndOfFile;
        if step.status == ReadError {
          return ReadFailed, emitted;
        }
        pos := if pos < |reader| then pos + 1 else pos;
        if |step.bytes| == 0 && step.status == More {
          continue;
        }
        var stop;
        stop, len, emitted, checks := Drain(pending, len, eof, emitted, checks, cancelled, emitFails, rest);
        if stop.Some? {
          return stop.value, emitted;
        }
        if eof {
          if len != 0 {
            return BufferedBytes(len), emitted;
          }
          assert pending[..len] + rest == [];
          assert emitted + [] == emitted;
          return Done, emitted;
        }
      }
    }
  }
}
