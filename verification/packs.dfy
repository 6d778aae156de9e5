/** How missing chunks are grouped into packs, and where each chunk lies in its pack. */
module Packs {
  import opened ByteStrings
  import opened Codec

  /** Offsets and sizes are integers because a stored index may hold any number. */
  datatype Location = Location(
    pack: nat, offset: int, length: int, plainSize: int, compression: Compression, encrypted: bool)

  function PlaceOf(u: EncodedChunk, pack: nat, offset: nat): Location {
    Location(pack, offset, |u.encoded|, |u.raw|, u.compression, u.encrypted)
  }

  /** The index of a pack: every chunk right after the ones written before it. */
  function Layout(us: seq<EncodedChunk>, pack: nat): map<ChunkId, Location> {
    if us == [] then map[]
    else
      var rest := us[..|us| - 1];
      Layout(rest, pack)[us[|us| - 1].id := PlaceOf(us[|us| - 1], pack, |PackBytes(rest)|)]
  }

  lemma {:induction false} LayoutKeys(us: seq<EncodedChunk>, pack: nat)
    ensures Layout(us, pack).Keys == Ids(us)
  {
    if us != [] {
      var rest, last := us[..|us| - 1], us[|us| - 1];
      LayoutKeys(rest, pack);
      assert us == rest + [last];
      assert Ids(us) == Ids(rest) + {last.id};
    }
  }

  lemma LayoutSnoc(us: seq<EncodedChunk>, u: EncodedChunk, pack: nat)
    ensures Layout(us + [u], pack) == Layout(us, pack)[u.id := PlaceOf(u, pack, |PackBytes(us)|)]
  {
    assert (us + [u])[..|us|] == us;
  }

  /** Each chunk's region is exactly its own bytes, starting where the previous region ends. */
  lemma {:induction false} LayoutRegion(us: seq<EncodedChunk>, pack: nat, i: nat)
    requires i < |us| && DistinctIds(us)
    ensures us[i].id in Layout(us, pack)
    ensures Layout(us, pack)[us[i].id] == PlaceOf(us[i], pack, |PackBytes(us[..i])|)
    ensures |PackBytes(us[..i])| + |us[i].encoded| == |PackBytes(us[..i + 1])| <= |PackBytes(us)|
    ensures PackBytes(us)[|PackBytes(us[..i])|..|PackBytes(us[..i + 1])|] == us[i].encoded
  {
    var rest, last := us[..|us| - 1], us[|us| - 1];
    assert us == rest + [last];
    assert us[..i + 1] == us[..i] + [us[i]];
    PackBytesSnoc(us[..i], us[i]);
    assert us == us[..i + 1] + us[i + 1..];
    PackBytesAppend(us[..i + 1], us[i + 1..]);
    if i < |us| - 1 {
      LayoutRegion(rest, pack, i);
      assert rest[..i] == us[..i];
    }
  }

  /** Regions of different chunks do not overlap, and every byte of the pack is in one. */
  lemma {:induction false} LayoutPartitions(us: seq<EncodedChunk>, pack: nat, b: nat)
    requires DistinctIds(us) && b < |PackBytes(us)|
    ensures exists i :: 0 <= i < |us| && Covers(Layout(us, pack), us[i].id, b)
    ensures forall id, id' :: Covers(Layout(us, pack), id, b) && Covers(Layout(us, pack), id', b) ==> id == id'
  {
    LayoutKeys(us, pack);
    var i := RegionAt(us, b);
    LayoutRegion(us, pack, i);
    forall id | Covers(Layout(us, pack), id, b) ensures id == us[i].id {
      var j :| 0 <= j < |us| && us[j].id == id;
      LayoutRegion(us, pack, j);
      if j < i {
        PrefixLength(us, j + 1, i);
      } else if i < j {
        PrefixLength(us, i + 1, j);
      }
    }
    assert Covers(Layout(us, pack), us[i].id, b);
  }

  predicate Covers(layout: map<ChunkId, Location>, id: ChunkId, b: int) {
    id in layout && layout[id].offset <= b < layout[id].offset + layout[id].length
  }

  lemma PrefixLength(us: seq<EncodedChunk>, i: nat, j: nat)
    requires i <= j <= |us|
    ensures |PackBytes(us[..i])| <= |PackBytes(us[..j])|
  {
    assert us[..j] == us[..i] + us[i..j];
    PackBytesAppend(us[..i], us[i..j]);
  }

  lemma {:induction false} RegionAt(us: seq<EncodedChunk>, b: nat) returns (i: nat)
    requires b < |PackBytes(us)|
    ensures i < |us|
    ensures |PackBytes(us[..i])| <= b < |PackBytes(us[..i + 1])|
  {
    assert us != [];
    var rest, last := us[..|us| - 1], us[|us| - 1];
    assert us == rest + [last];
    PackBytesSnoc(rest, last);
    if b < |PackBytes(rest)| {
      i := RegionAt(rest, b);
      assert rest[..i] == us[..i] && rest[..i + 1] == us[..i + 1];
    } else {
      i := |us| - 1;
      assert us[..i + 1] == us;
    }
  }

  // ---------------------------------------------------------------- grouping

  /** A pack is closed just before the chunk that would take it over the limit. */
  predicate MustFlush(open: seq<EncodedChunk>, u: EncodedChunk, limit: int) {
    |PackBytes(open)| > 0 && |PackBytes(open)| + |u.encoded| > limit
  }

  /** One more chunk: into the open pack, or into a new one. */
  function Append(groups: seq<seq<EncodedChunk>>, u: EncodedChunk, limit: int): seq<seq<EncodedChunk>> {
    if groups == [] || MustFlush(groups[|groups| - 1], u, limit) then groups + [[u]]
    else groups[..|groups| - 1] + [groups[|groups| - 1] + [u]]
  }

  /** The packs for these chunks; the last one is still open. */
  function Grouped(us: seq<EncodedChunk>, limit: int): (groups: seq<seq<EncodedChunk>>)
    ensures us == [] <==> groups == []
  {
    if us == [] then [] else Append(Grouped(us[..|us| - 1], limit), us[|us| - 1], limit)
  }

  function Flatten(groups: seq<seq<EncodedChunk>>): seq<EncodedChunk> {
    if groups == [] then [] else Flatten(groups[..|groups| - 1]) + groups[|groups| - 1]
  }

  lemma FlattenSnoc(groups: seq<seq<EncodedChunk>>, g: seq<EncodedChunk>)
    ensures Flatten(groups + [g]) == Flatten(groups) + g
  {
    assert (groups + [g])[..|groups|] == groups;
  }

  lemma {:induction false} FlattenCons(g: seq<EncodedChunk>, groups: seq<seq<EncodedChunk>>)
    ensures Flatten([g] + groups) == g + Flatten(groups)
  {
    hide PackBytes, Grouped;
    assert Flatten([]) == [];
    hide Flatten;
    if groups == [] {
      FlattenSnoc([], g);
      assert [g] + groups == [] + [g];
    } else {
      var rest, last := groups[..|groups| - 1], groups[|groups| - 1];
      assert [g] + groups == ([g] + rest) + [last];
      assert groups == rest + [last];
      FlattenCons(g, rest);
      FlattenSnoc([g] + rest, last);
      FlattenSnoc(rest, last);
    }
  }

  /** A pack keeps to the limit, unless it is a single oversized chunk. */
  predicate Fits(g: seq<EncodedChunk>, limit: int) {
    g != [] && (|g| == 1 || |PackBytes(g)| <= limit)
  }

  /** The pack-size rule, read off the finished packs rather than the loop that makes them. */
  ghost predicate PackedWithin(groups: seq<seq<EncodedChunk>>, limit: int) {
    && (forall g :: 0 <= g < |groups| ==> Fits(groups[g], limit))
    && (forall g, h :: 0 <= g && h == g + 1 && h < |groups| ==>
          |PackBytes(groups[g])| + |groups[h][0].encoded| > limit)
  }

  ghost predicate NonEmptyEncodings(us: seq<EncodedChunk>) {
    forall u :: u in us ==> 0 < |u.encoded|
  }

  lemma SizePositive(us: seq<EncodedChunk>)
    requires us != [] && NonEmptyEncodings(us)
    ensures |PackBytes(us)| > 0
  {
    assert us == us[..|us| - 1] + [us[|us| - 1]];
    PackBytesSnoc(us[..|us| - 1], us[|us| - 1]);
  }

  lemma FlattenOneMore(groups: seq<seq<EncodedChunk>>, u: EncodedChunk, limit: int)
    ensures Flatten(Append(groups, u, limit)) == Flatten(groups) + [u]
  {
    if groups == [] || MustFlush(groups[|groups| - 1], u, limit) {
      FlattenSnoc(groups, [u]);
    } else {
      FlattenSnoc(groups[..|groups| - 1], groups[|groups| - 1] + [u]);
      assert Flatten(groups) == Flatten(groups[..|groups| - 1]) + groups[|groups| - 1];
    }
  }

  /** Nothing is lost, reordered or duplicated. */
  lemma {:induction false} FlattenGrouped(us: seq<EncodedChunk>, limit: int)
    ensures Flatten(Grouped(us, limit)) == us
  {
    if us != [] {
      var rest, u := us[..|us| - 1], us[|us| - 1];
      FlattenGrouped(rest, limit);
      FlattenOneMore(Grouped(rest, limit), u, limit);
      assert us == rest + [u];
    }
  }

  /**
   No pack exceeds the limit unless a single chunk does, and no pack was closed while its
   next chunk would still have fitted.
   */
  lemma {:induction false} GroupedIsGreedy(us: seq<EncodedChunk>, limit: int)
    requires NonEmptyEncodings(us)
    ensures Flatten(Grouped(us, limit)) == us
    ensures PackedWithin(Grouped(us, limit), limit)
  {
    FlattenGrouped(us, limit);
    if us != [] {
      var rest, u := us[..|us| - 1], us[|us| - 1];
      GroupedIsGreedy(rest, limit);
      var before := Grouped(rest, limit);
      if before != [] {
        var closed, open := before[..|before| - 1], before[|before| - 1];
        assert before == closed + [open];
        assert NonEmptyEncodings(open) by {
          assert rest == Flatten(closed) + open;
        }
        SizePositive(open);
        if MustFlush(open, u, limit) {
          ClosedThenNew(before, u, limit);
        } else {
          PackBytesSnoc(open, u);
          LastGrows(closed, open, u, limit);
        }
      }
    }
  }

  lemma ClosedThenNew(before: seq<seq<EncodedChunk>>, u: EncodedChunk, limit: int)
    requires before != [] && PackedWithin(before, limit)
    requires |PackBytes(before[|before| - 1])| + |u.encoded| > limit
    ensures PackedWithin(before + [[u]], limit)
  {
  }

  lemma LastGrows(closed: seq<seq<EncodedChunk>>, open: seq<EncodedChunk>, u: EncodedChunk, limit: int)
    requires PackedWithin(closed + [open], limit)
    requires |PackBytes(open + [u])| <= limit
    ensures PackedWithin(closed + [open + [u]], limit)
  {
    var old', new' := closed + [open], closed + [open + [u]];
    assert forall g :: 0 <= g < |closed| ==> new'[g] == old'[g];
    assert Fits(old'[|closed|], limit);
  }

  /** Two groupings of the same chunks that both obey the rule are the same grouping. */
  lemma {:induction false} GreedyIsUnique(gs: seq<seq<EncodedChunk>>, hs: seq<seq<EncodedChunk>>, limit: int)
    requires Flatten(gs) == Flatten(hs) && NonEmptyEncodings(Flatten(gs))
    requires PackedWithin(gs, limit) && PackedWithin(hs, limit)
    ensures gs == hs
  {
    assert Flatten([]) == [];
    hide PackBytes, Flatten;
    if gs == [] && hs != [] {
      FirstPack(hs, limit);
    } else if hs == [] && gs != [] {
      FirstPack(gs, limit);
    } else if gs == [] {
    } else {
      assert gs == [gs[0]] + gs[1..] && hs == [hs[0]] + hs[1..];
      FlattenCons(gs[0], gs[1..]);
      FlattenCons(hs[0], hs[1..]);
      FirstPack(gs, limit);
      FirstPack(hs, limit);
      LongestPrefixIsUnique(gs[0], hs[0], Flatten(gs), limit);
      LongestPrefixIsUnique(hs[0], gs[0], Flatten(gs), limit);
      assert gs[0] == Flatten(gs)[..|gs[0]|] == hs[0];
      assert Flatten(gs[1..]) == Flatten(gs)[|gs[0]|..] == Flatten(hs[1..]);
      assert NonEmptyEncodings(Flatten(gs[1..]));
      GreedyIsUnique(gs[1..], hs[1..], limit);
    }
  }

  /** A closed pack is the longest prefix of what remains that fits. */
  ghost predicate LongestPrefix(g: seq<EncodedChunk>, all: seq<EncodedChunk>, limit: int) {
    && g <= all && Fits(g, limit)
    && (g == all || (|g| < |all| && |PackBytes(g)| + |all[|g|].encoded| > limit))
  }

  lemma FirstPack(gs: seq<seq<EncodedChunk>>, limit: int)
    requires gs != [] && PackedWithin(gs, limit)
    ensures LongestPrefix(gs[0], Flatten(gs), limit)
  {
    assert gs == [gs[0]] + gs[1..];
    FlattenCons(gs[0], gs[1..]);
    assert Fits(gs[0], limit);
    if |gs| > 1 {
      assert gs[1..] == [gs[1]] + gs[2..];
      FlattenCons(gs[1], gs[2..]);
      assert Fits(gs[1], limit);
    }
  }

  lemma LongestPrefixIsUnique(g: seq<EncodedChunk>, h: seq<EncodedChunk>, all: seq<EncodedChunk>, limit: int)
    requires LongestPrefix(g, all, limit) && LongestPrefix(h, all, limit)
    ensures |g| >= |h|
  {
    if |g| < |h| {
      var next := all[|g|];
      assert h == (g + [next]) + h[|g| + 1..];
      PackBytesAppend(g + [next], h[|g| + 1..]);
      PackBytesSnoc(g, next);
    }
  }
}
