/** Uploading a plan: the loop that packs missing chunks, and what it leaves when it fails. */
module Backup {
  import opened ByteStrings
  import opened Codec
  import opened Packs
  import opened Store
  import opened Calls
  import opened Upload
  import opened Runs
  import opened Repository

  // ------------------------------------------------------------ packs already closed stay closed

  lemma {:induction false} GroupedExtends(us: seq<EncodedChunk>, vs: seq<EncodedChunk>, limit: int)
    requires us != []
    ensures var n := |Grouped(us, limit)|;
      n > 0 && |Grouped(us + vs, limit)| >= n && Grouped(us + vs, limit)[..n - 1] == Grouped(us, limit)[..n - 1]
  {
    if vs == [] {
      assert us + vs == us;
    } else {
      var init := vs[..|vs| - 1];
      GroupedExtends(us, init, limit);
      assert (us + vs)[..|us + vs| - 1] == us + init;
    }
  }

  /** Once a chunk forces a flush, the pack before it is final. */
  lemma FlushedStays(us: seq<EncodedChunk>, u: EncodedChunk, vs: seq<EncodedChunk>, limit: int)
    requires us != [] && MustFlush(Grouped(us, limit)[|Grouped(us, limit)| - 1], u, limit)
    ensures Grouped(us, limit) <= Grouped(us + [u] + vs, limit)
  {
    assert (us + [u])[..|us|] == us;
    GroupedExtends(us + [u], vs, limit);
  }

  lemma {:induction false} PackCallsPrefix(c: Primitives, groups: seq<seq<EncodedChunk>>, k: nat)
    requires k <= |groups|
    ensures |PackCalls(c, groups)| == 2 * |groups|
    ensures PackCalls(c, groups)[..2 * k] == PackCalls(c, groups[..k])
    ensures k < |groups| ==> var d := DigestOf(c, groups[k]);
      && PackCalls(c, groups)[2 * k] == Put(PackKey(d), PackObject(PackBytes(groups[k])))
      && PackCalls(c, groups)[2 * k + 1] == Put(IndexKey(d), IndexObject(SegmentOf(groups[k], d)))
  {
    if groups != [] {
      var init := groups[..|groups| - 1];
      if k < |groups| {
        PackCallsPrefix(c, init, k);
        assert init[..k] == groups[..k];
      } else {
        PackCallsPrefix(c, init, |init|);
        assert groups[..k] == groups;
      }
    }
  }

  /** Filling in the pack key once the pack is complete. */
  lemma {:induction false} LayoutRepack(us: seq<EncodedChunk>, from: nat, pack: nat)
    ensures (map id | id in Layout(us, from) :: Layout(us, from)[id].(pack := pack)) == Layout(us, pack)
  {
    LayoutKeys(us, from);
    LayoutKeys(us, pack);
    if us != [] {
      LayoutRepack(us[..|us| - 1], from, pack);
      LayoutKeys(us[..|us| - 1], from);
      LayoutKeys(us[..|us| - 1], pack);
      forall id | id in Layout(us, pack) ensures Layout(us, from)[id].(pack := pack) == Layout(us, pack)[id] {
        if id != us[|us| - 1].id {
          assert id in Layout(us[..|us| - 1], from);
        }
      }
    }
  }

  lemma LayoutNonEmpty(us: seq<EncodedChunk>, pack: nat)
    ensures us != [] ==> us[|us| - 1].id in Layout(us, pack)
  {
  }

  lemma EmptyPack()
    ensures PackBytes([]) == [] && Layout([], 0) == map[]
  {
  }

  /** The rest of an upload that was given up, had it gone on. */
  ghost function EncodeRest(c: Primitives, plan: Plan, ids: seq<ChunkId>): seq<EncodedChunk>
    requires forall id :: id in ids ==> InSpool(plan, id)
  {
    var s := plan.snapshot;
    seq(|ids|, i requires 0 <= i < |ids| =>
      EncodedChunk(ids[i], Raw(plan, ids[i]), s.compression, s.encrypted,
                   c.encode(Raw(plan, ids[i]), s.compression, s.encrypted, ids[i], 0)))
  }

  /** `us` starts the encodings of `missing`; completing it gives a ready upload. */
  lemma CompleteEncodings(c: Primitives, objects: Objects, plan: Plan, us: seq<EncodedChunk>)
    returns (all: seq<EncodedChunk>)
    requires ValidPlan(c, plan)
    requires var missing := Missing(objects, plan.order);
      |us| <= |missing| && EncodingsOf(c, plan, missing[..|us|], us)
    ensures us <= all && Prepared(c, objects, plan, all)
  {
    hide Missing, ValidSnapshot;
    var missing := Missing(objects, plan.order);
    MissingExactly(objects, plan.order);
    var rest := missing[|us|..];
    forall id | id in rest ensures InSpool(plan, id) {
      assert id in missing;
    }
    all := us + EncodeRest(c, plan, rest);
    forall i | 0 <= i < |all| ensures InSpool(plan, missing[i]) && EncodingOf(c, plan, missing[i], all[i]) {
      assert missing[i] in missing;
      if i < |us| {
        assert missing[..|us|][i] == missing[i];
        assert EncodingOf(c, plan, missing[..|us|][i], us[i]);
      } else {
        assert rest[i - |us|] == missing[i];
        assert all[i] == EncodeRest(c, plan, rest)[i - |us|];
      }
    }
  }

  // ------------------------------------------------------------ what an upload counts

  datatype UploadResult = UploadResult(uniqueChunks: nat, newChunks: nat, reusedBytes: nat)

  /** The total size of these chunks of a plan. */
  ghost function PlanBytes(plan: Plan, ids: seq<ChunkId>): nat
    requires forall id :: id in ids ==> id in plan.chunks
  {
    if ids == [] then 0 else PlanBytes(plan, ids[..|ids| - 1]) + plan.chunks[ids[|ids| - 1]].size
  }

  ghost function RawBytes(us: seq<EncodedChunk>): nat {
    if us == [] then 0 else RawBytes(us[..|us| - 1]) + |us[|us| - 1].raw|
  }

  lemma {:induction false} EncodedBytes(c: Primitives, plan: Plan, missing: seq<ChunkId>, us: seq<EncodedChunk>)
    requires EncodingsOf(c, plan, missing, us)
    ensures forall id :: id in missing ==> id in plan.chunks
    ensures RawBytes(us) == PlanBytes(plan, missing)
    ensures Ids(us) == set id | id in missing
  {
    if us != [] {
      var init, last, m := us[..|us| - 1], us[|us| - 1], missing[|us| - 1];
      EncodedBytes(c, plan, missing[..|us| - 1], init);
      assert EncodingOf(c, plan, m, last);
      assert missing == missing[..|us| - 1] + [m] && us == init + [last];
      assert Ids(us) == Ids(init) + {last.id};
    }
  }

  lemma {:induction false} DistinctCount(ids: seq<ChunkId>)
    requires forall i, j :: 0 <= i < j < |ids| ==> ids[i] != ids[j]
    ensures |set id | id in ids| == |ids|
  {
    if ids != [] {
      var init, last := ids[..|ids| - 1], ids[|ids| - 1];
      DistinctCount(init);
      assert (set id | id in ids) == (set id | id in init) + {last};
    }
  }

  /** The new chunks of an upload are those the index lacked, and their sizes add up. */
  lemma UploadCounts(c: Primitives, objects: Objects, plan: Plan, us: seq<EncodedChunk>)
    requires Prepared(c, objects, plan, us)
    ensures forall id :: id in Ids(us) <==> id in plan.order && !Indexed(objects, id)
    ensures |Ids(us)| == |us|
    ensures forall id :: id in plan.order ==> id in plan.chunks
    ensures forall id :: id in Missing(objects, plan.order) ==> id in plan.chunks
    ensures RawBytes(us) == PlanBytes(plan, Missing(objects, plan.order))
  {
    hide Missing, Indexed, EncodingsOf, ValidSnapshot;
    var missing := Missing(objects, plan.order);
    MissingExactly(objects, plan.order);
    EncodedBytes(c, plan, missing, us);
    DistinctCount(missing);
    EncodingsLength(c, plan, missing, us);
  }

  lemma PlanBytesSnoc(plan: Plan, ids: seq<ChunkId>, id: ChunkId)
    requires id in plan.chunks && forall i :: i in ids ==> i in plan.chunks
    ensures PlanBytes(plan, ids + [id]) == PlanBytes(plan, ids) + plan.chunks[id].size
  {
    assert (ids + [id])[..|ids|] == ids;
  }

  /** One more chunk of the plan is either missing or reused. */
  lemma CountOne(objects: Objects, plan: Plan, order: seq<ChunkId>, id: ChunkId)
    requires id in plan.chunks && forall i :: i in order ==> i in plan.chunks
    requires forall i :: i in Missing(objects, order) ==> i in plan.chunks
    ensures forall i :: i in Missing(objects, order + [id]) ==> i in plan.chunks
    ensures PlanBytes(plan, order + [id]) == PlanBytes(plan, order) + plan.chunks[id].size
    ensures PlanBytes(plan, Missing(objects, order + [id]))
            == PlanBytes(plan, Missing(objects, order)) + if Indexed(objects, id) then 0 else plan.chunks[id].size
  {
    hide Indexed, PlanBytes, Missing;
    PlanBytesSnoc(plan, order, id);
    PlanBytesSnoc(plan, Missing(objects, order), id);
    MissingSnoc(objects, order, id);
  }

  lemma MissingSnoc(objects: Objects, order: seq<ChunkId>, id: ChunkId)
    ensures Missing(objects, order + [id])
            == if Indexed(objects, id) then Missing(objects, order) else Missing(objects, order) + [id]
  {
    hide Indexed;
    assert (order + [id])[..|order|] == order;
  }

  lemma NothingCounted(objects: Objects, plan: Plan)
    ensures Missing(objects, []) == [] && PlanBytes(plan, []) == 0
  {
  }

  lemma EncodingsLength(c: Primitives, plan: Plan, missing: seq<ChunkId>, us: seq<EncodedChunk>)
    requires EncodingsOf(c, plan, missing, us)
    ensures |us| == |missing|
  {
  }

  // ------------------------------------------------------------ the pack being written

  function StoreCalls(c: Primitives, g: seq<EncodedChunk>): seq<Call> {
    var d := DigestOf(c, g);
    [Put(PackKey(d), PackObject(PackBytes(g))), Put(IndexKey(d), IndexObject(SegmentOf(g, d)))]
  }

  /** What a flush that failed may have done: nothing, the pack only, or the pack and its removal. */
  ghost predicate FlushFailed(c: Primitives, g: seq<EncodedChunk>, made: seq<Call>) {
    var d := DigestOf(c, g);
    made == [] || made == StoreCalls(c, g)[..1] || made == StoreCalls(c, g)[..1] + [Delete(PackKey(d))]
  }

  class PackWriter {
    const c: Primitives
    const packSize: int
    var open: bool
    var bytes: Bytes
    var chunks: map<ChunkId, Location>
    ghost var group: seq<EncodedChunk>

    ghost predicate Valid()
      reads this
    {
      && (open <==> group != [])
      && bytes == PackBytes(group)
      && chunks == Layout(group, 0)
    }

    constructor (c: Primitives, packSize: int)
      ensures Valid() && this.c == c && this.packSize == packSize && group == []
    {
      this.c, this.packSize := c, packSize;
      open, bytes, chunks, group := false, [], map[], [];
    }

    /** Appends a chunk at the current end of the pack. */
    method Add(u: EncodedChunk)
      requires Valid()
      modifies this
      ensures Valid() && group == old(group) + [u]
    {
      LayoutSnoc(group, u, 0);
      PackBytesSnoc(group, u);
      hide Layout, PackBytes;
      chunks := chunks[u.id := PlaceOf(u, 0, |bytes|)];
      bytes := bytes + u.encoded;
      open := true;
      group := group + [u];
    }

    /** Stores the pack, then its index; takes the pack back if the index is refused. */
    method Flush(provider: Provider) returns (ok: bool, stored: set<ChunkId>, ghost made: seq<Call>)
      requires Valid()
      modifies this, provider
      ensures provider.calls == old(provider.calls) + made
      ensures provider.objects == ApplyAll(old(provider.objects), made)
      ensures ok ==> Valid() && group == [] && stored == Ids(old(group))
      ensures ok ==> made == if old(group) == [] then [] else StoreCalls(c, old(group))
      ensures !ok ==> old(group) != [] && FlushFailed(c, old(group), made)
    {
      hide Layout, PackBytes;
      made, stored := [], {};
      if !open || chunks == map[] {
        LayoutNonEmpty(group, 0);
        return true, {}, made;
      }
      ghost var before := provider.objects;
      var digest := c.packDigest(bytes);
      var placed := map id | id in chunks :: chunks[id].(pack := digest);
      LayoutRepack(group, 0, digest);
      ok := provider.Upload(PackKey(digest), PackObject(bytes));
      if !ok {
        return false, {}, made;
      }
      made := [Put(PackKey(digest), PackObject(bytes))];
      assert [] + made == made;
      ApplySnoc(before, [], made[0]);
      ok := provider.Upload(IndexKey(digest), IndexObject(Segment(FORMAT_VERSION, digest, placed)));
      if !ok {
        var deleted := provider.Delete(PackKey(digest));
        if deleted {
          ApplySnoc(before, made, Delete(PackKey(digest)));
          made := made + [Delete(PackKey(digest))];
        }
        return false, {}, made;
      }
      ApplySnoc(before, made, StoreCalls(c, group)[1]);
      made := StoreCalls(c, group);
      assert made == made[..1] + [made[1]];
      LayoutKeys(group, 0);
      stored := chunks.Keys;
      EmptyPack();
      open, bytes, chunks, group := false, [], map[], [];
    }

    /** Adds a chunk, first flushing a pack it would take over the limit. */
    method Append(provider: Provider, u: EncodedChunk) returns (ok: bool, stored: set<ChunkId>, ghost made: seq<Call>)
      requires Valid()
      modifies this, provider
      ensures provider.calls == old(provider.calls) + made
      ensures provider.objects == ApplyAll(old(provider.objects), made)
      ensures ok && MustFlush(old(group), u, packSize) ==>
        Valid() && group == [u] && stored == Ids(old(group)) && made == StoreCalls(c, old(group))
      ensures ok && !MustFlush(old(group), u, packSize) ==>
        Valid() && group == old(group) + [u] && stored == {} && made == []
      ensures !ok ==> old(group) != [] && MustFlush(old(group), u, packSize) && FlushFailed(c, old(group), made)
    {
      ok, stored, made := true, {}, [];
      if open && |bytes| > 0 && |bytes| + |u.encoded| > packSize {
        ok, stored, made := Flush(provider);
        if !ok {
          return;
        }
        assert made != [];
      }
      Add(u);
    }
  }

  // ------------------------------------------------------------ the upload

  /** After `n` chunks of the plan: what was encoded, which packs are stored, which is open. */
  ghost predicate Progress(c: Primitives, packSize: int, objects: Objects, plan: Plan, n: nat, us: seq<EncodedChunk>,
                           closed: seq<seq<EncodedChunk>>, group: seq<EncodedChunk>)
    requires n <= |plan.order|
  {
    && EncodingsOf(c, plan, Missing(objects, plan.order[..n]), us)
    && if us == [] then closed == [] && group == []
       else group != [] && Grouped(us, packSize) == closed + [group]
  }

  lemma ProgressStarts(c: Primitives, packSize: int, objects: Objects, plan: Plan)
    ensures Progress(c, packSize, objects, plan, 0, [], [], [])
    ensures PackCalls(c, []) == [] && Ids(Flatten([])) == {} && ApplyAll(objects, []) == objects
  {
    assert Ids([]) == {};
  }

  lemma ProgressEnds(c: Primitives, packSize: int, objects: Objects, plan: Plan, us: seq<EncodedChunk>,
                     closed: seq<seq<EncodedChunk>>, group: seq<EncodedChunk>)
    requires ValidPlan(c, plan) && Progress(c, packSize, objects, plan, |plan.order|, us, closed, group)
    ensures Prepared(c, objects, plan, us) && Flatten(Grouped(us, packSize)) == us
    ensures group == [] ==>
      PackCalls(c, closed) == PackCalls(c, Grouped(us, packSize)) && Ids(Flatten(closed)) == Ids(us)
    ensures group != [] ==> Grouped(us, packSize) == closed + [group]
  {
    assert plan.order[..|plan.order|] == plan.order;
    FlattenGrouped(us, packSize);
  }

  lemma MissingNext(objects: Objects, order: seq<ChunkId>, n: nat)
    requires n < |order|
    ensures Missing(objects, order[..n + 1]) ==
      Missing(objects, order[..n]) + if Indexed(objects, order[n]) then [] else [order[n]]
  {
    assert order[..n + 1][..n] == order[..n];
  }

  lemma {:induction false} MissingPrefix(objects: Objects, order: seq<ChunkId>, n: nat)
    requires n <= |order|
    ensures Missing(objects, order[..n]) <= Missing(objects, order)
    decreases |order| - n
  {
    if n == |order| {
      assert order[..n] == order;
    } else {
      MissingNext(objects, order, n);
      MissingPrefix(objects, order, n + 1);
    }
  }

  /** The next chunk has not been packed before: it is known only if the index has it. */
  lemma NextIsFresh(c: Primitives, packSize: int, objects: Objects, plan: Plan, n: nat, us: seq<EncodedChunk>,
                    closed: seq<seq<EncodedChunk>>, group: seq<EncodedChunk>)
    requires ValidPlan(c, plan) && n < |plan.order|
    requires Progress(c, packSize, objects, plan, n, us, closed, group)
    ensures plan.order[n] !in Ids(Flatten(closed))
  {
    hide Indexed, Grouped, PackBytes, ValidSnapshot;
    if us != [] {
      FlattenGrouped(us, packSize);
      FlattenSnoc(closed, group);
      assert us == Flatten(closed) + group;
      var missing := Missing(objects, plan.order[..n]);
      MissingExactly(objects, plan.order[..n]);
      forall u | u in Flatten(closed) ensures u.id != plan.order[n] {
        var i :| 0 <= i < |Flatten(closed)| && Flatten(closed)[i] == u;
        assert us[i] == u;
        assert EncodingOf(c, plan, missing[i], us[i]);
        assert missing[i] in missing;
      }
    }
  }

  lemma SkipIndexed(c: Primitives, packSize: int, objects: Objects, plan: Plan, n: nat, us: seq<EncodedChunk>,
                    closed: seq<seq<EncodedChunk>>, group: seq<EncodedChunk>)
    requires n < |plan.order| && Indexed(objects, plan.order[n])
    requires Progress(c, packSize, objects, plan, n, us, closed, group)
    ensures Progress(c, packSize, objects, plan, n + 1, us, closed, group)
  {
    hide EncodingsOf, Grouped;
    MissingNext(objects, plan.order, n);
    assert Missing(objects, plan.order[..n + 1]) == Missing(objects, plan.order[..n]);
  }

  lemma PlanHasChunk(c: Primitives, plan: Plan, n: nat)
    requires ValidPlan(c, plan) && n < |plan.order|
    ensures InSpool(plan, plan.order[n])
  {
    assert plan.order[n] in plan.chunks;
  }

  lemma EncodedWith(c: Primitives, plan: Plan, id: ChunkId, u: EncodedChunk, nonce: nat)
    requires InSpool(plan, id)
    requires var s := plan.snapshot;
      u == EncodedChunk(id, Raw(plan, id), s.compression, s.encrypted,
          c.encode(Raw(plan, id), s.compression, s.encrypted, id, nonce))
    ensures EncodingOf(c, plan, id, u)
  {
  }

  lemma TakeOne(c: Primitives, packSize: int, objects: Objects, plan: Plan, n: nat, us: seq<EncodedChunk>,
                closed: seq<seq<EncodedChunk>>, group: seq<EncodedChunk>, u: EncodedChunk)
    requires ValidPlan(c, plan) && n < |plan.order| && !Indexed(objects, plan.order[n])
    requires Progress(c, packSize, objects, plan, n, us, closed, group)
    requires InSpool(plan, plan.order[n]) && EncodingOf(c, plan, plan.order[n], u)
    ensures if MustFlush(group, u, packSize)
            then Progress(c, packSize, objects, plan, n + 1, us + [u], closed + [group], [u])
            else Progress(c, packSize, objects, plan, n + 1, us + [u], closed, group + [u])
  {
    hide Indexed, InSpool, EncodingOf, ValidPlan;
    MissingNext(objects, plan.order, n);
    EncodingsSnoc(c, plan, Missing(objects, plan.order[..n]), us, plan.order[n], u);
    EmptyPack();
    hide EncodingsOf, Missing, PackBytes;
    assert (us + [u])[..|us|] == us;
  }

  lemma EncodingsSnoc(c: Primitives, plan: Plan, ids: seq<ChunkId>, us: seq<EncodedChunk>, id: ChunkId, u: EncodedChunk)
    requires EncodingsOf(c, plan, ids, us) && InSpool(plan, id) && EncodingOf(c, plan, id, u)
    ensures EncodingsOf(c, plan, ids + [id], us + [u])
  {
  }

  /** A flush that fails in the middle of an upload, seen from the upload as a whole. */
  lemma GivenUp(c: Primitives, packSize: int, objects: Objects, plan: Plan, n: nat, us: seq<EncodedChunk>,
                closed: seq<seq<EncodedChunk>>, group: seq<EncodedChunk>, u: EncodedChunk)
    returns (all: seq<EncodedChunk>)
    requires ValidPlan(c, plan) && n < |plan.order| && !Indexed(objects, plan.order[n])
    requires Progress(c, packSize, objects, plan, n, us, closed, group)
    requires InSpool(plan, plan.order[n]) && EncodingOf(c, plan, plan.order[n], u)
    requires MustFlush(group, u, packSize)
    ensures Prepared(c, objects, plan, all)
    ensures closed + [group] <= Grouped(all, packSize)
  {
    hide Grouped, PackBytes, Missing, Indexed;
    EmptyPack();
    TakeOne(c, packSize, objects, plan, n, us, closed, group, u);
    MissingPrefix(objects, plan.order, n + 1);
    var begun := us + [u];
    all := CompleteEncodings(c, objects, plan, begun);
    assert all == us + [u] + all[|begun|..];
    FlushedStays(us, u, all[|begun|..], packSize);
  }

  class RepositoryStore {
    const c: Primitives
    const packSize: int

    constructor (c: Primitives, packSize: int)
      ensures this.c == c && this.packSize == packSize
    {
      this.c := c;
      this.packSize := packSize;
    }

    /**
     Packs and stores every chunk the index lacks. On success the provider has seen exactly
     the pack calls of these chunks; on failure it has seen those of the first packs, and
     what a failed flush leaves of the next one.
     */
    method UploadMissingChunks(provider: Provider, plan: Plan, locations: map<ChunkId, Location>)
      returns (ok: bool, newIds: set<ChunkId>, ghost us: seq<EncodedChunk>, ghost made: seq<Call>)
      requires ValidPlan(c, plan) && IsIndexOf(provider.objects, locations)
      modifies provider
      ensures provider.calls == old(provider.calls) + made
      ensures provider.objects == ApplyAll(old(provider.objects), made)
      ensures Prepared(c, old(provider.objects), plan, us)
      ensures ok ==> newIds == Ids(us) && made == PackCalls(c, Grouped(us, packSize))
      ensures !ok ==> PartlyStored(c, Grouped(us, packSize), made)
    {
      var writer := new PackWriter(c, packSize);
      var known := locations.Keys;
      newIds := {};
      us, made := [], [];
      hide ValidPlan, InSpool, FirstHolder, Progress, Grouped, Flatten, PackCalls, ApplyAll, Missing, EncodingsOf,
        EncodingOf, PackBytes, MustFlush, Layout, StoreCalls, FlushFailed, PartlyStored, Prepared, Append, Indexed,
        DigestOf;
      ProgressStarts(c, packSize, provider.objects, plan);
      ghost var objects := provider.objects;
      ghost var closed: seq<seq<EncodedChunk>> := [];
      for n := 0 to |plan.order|
        invariant writer.Valid() && fresh(writer) && writer.c == c && writer.packSize == packSize
        invariant Progress(c, packSize, objects, plan, n, us, closed, writer.group)
        invariant known == locations.Keys + newIds && newIds == Ids(Flatten(closed))
        invariant made == PackCalls(c, closed)
        invariant provider.calls == old(provider.calls) + made
        invariant provider.objects == ApplyAll(objects, made)
      {
        var id := plan.order[n];
        NextIsFresh(c, packSize, objects, plan, n, us, closed, writer.group);
        if id in known {
          SkipIndexed(c, packSize, objects, plan, n, us, closed, writer.group);
          continue;
        }
        PlanHasChunk(c, plan, n);
        var raw := Raw(plan, id);
        var nonce: nat := *;
        var s := plan.snapshot;
        var u := EncodedChunk(id, raw, s.compression, s.encrypted,
            c.encode(raw, s.compression, s.encrypted, id, nonce));
        EncodedWith(c, plan, id, u, nonce);
        TakeOne(c, packSize, objects, plan, n, us, closed, writer.group, u);
        ghost var group := writer.group;
        ghost var tail;
        var stored;
        ok, stored, tail := writer.Append(provider, u);
        ApplyAppend(objects, made, tail);
        made := made + tail;
        if !ok {
          us := GivenUp(c, packSize, objects, plan, n, us, closed, group, u);
          StoppedAt(c, Grouped(us, packSize), closed, group, tail);
          return;
        }
        if MustFlush(group, u, packSize) {
          StoredOne(c, closed, group);
          closed := closed + [group];
        }
        newIds, known := newIds + stored, known + stored;
        us := us + [u];
      }
      ghost var group := writer.group;
      ProgressEnds(c, packSize, objects, plan, us, closed, group);
      ghost var tail;
      var stored;
      ok, stored, tail := writer.Flush(provider);
      ApplyAppend(objects, made, tail);
      if ok {
        newIds := newIds + stored;
        StoredOne(c, closed, group);
      } else {
        StoppedAt(c, Grouped(us, packSize), closed, group, tail);
      }
      made := made + tail;
    }

    /** The sizes of the plan's chunks that were not new. */
    method CountReused(plan: Plan, newIds: set<ChunkId>, ghost objects: Objects, ghost us: seq<EncodedChunk>)
      returns (reused: nat)
      requires ValidPlan(c, plan) && Prepared(c, objects, plan, us) && newIds == Ids(us)
      ensures |newIds| == |us|
      ensures reused + RawBytes(us) == PlanBytes(plan, plan.order)
    {
      hide Prepared, Indexed, ValidPlan, Ids, RawBytes, Missing, PlanBytes;
      UploadCounts(c, objects, plan, us);
      ghost var order := plan.order;
      reused := 0;
      NothingCounted(objects, plan);
      assert order[..0] == [];
      for n := 0 to |plan.order|
        invariant forall id :: id in Missing(objects, order[..n]) ==> id in plan.chunks
        invariant reused + PlanBytes(plan, Missing(objects, order[..n])) == PlanBytes(plan, order[..n])
      {
        var id := plan.order[n];
        CountOne(objects, plan, order[..n], id);
        assert order[..n + 1] == order[..n] + [id];
        if id !in newIds {
          reused := reused + plan.chunks[id].size;
        }
      }
      assert order[..|order|] == order;
    }

    /**
     A locked upload: read the index, store what is missing, then the snapshot. The ghost
     step is the one of `Runs` that describes what happened. What was reused and what is
     new add up to the plan.
     */
    method Upload(provider: Provider, plan: Plan, name: string, checksum: nat)
      returns (r: Result<UploadResult, RepositoryError>, ghost step: Step)
      requires ValidPlan(c, plan)
      modifies provider
      ensures step.op.UploadSnapshot? && step.op.plan == plan && step.op.name == name && step.op.checksum == checksum
      ensures Prepared(c, old(provider.objects), plan, step.op.us)
      ensures step.cut <= |CallsOf(c, packSize, step.op)|
      ensures provider.calls == old(provider.calls) + Made(c, packSize, step)
      ensures provider.objects == ApplyAll(old(provider.objects), Made(c, packSize, step))
      ensures r.Ok? ==> Made(c, packSize, step) == UploadCalls(c, packSize, plan, step.op.us, name, checksum)
      ensures r.Ok? ==> r.value.uniqueChunks == |plan.order| && r.value.newChunks == |step.op.us|
      ensures r.Ok? ==> r.value.reusedBytes + RawBytes(step.op.us) == PlanBytes(plan, plan.order)
    {
      hide ValidPlan, PackCalls, Grouped, PartlyStored, ApplyAll, Prepared, IsIndexOf;
      ghost var objects := provider.objects;
      var index := LoadIndex(provider.objects, packSize);
      if index.Err? {
        ghost var us := NothingStored(c, packSize, objects, plan);
        step := Step(UploadSnapshot(plan, us, name, checksum), 0, Stopped);
        assert Made(c, packSize, step) == [];
        return Err(index.error), step;
      }
      var stored, newIds;
      ghost var us, made;
      stored, newIds, us, made := UploadMissingChunks(provider, plan, index.value);
      var op := UploadSnapshot(plan, us, name, checksum);
      if !stored {
        step := FailedStep(c, packSize, op, made);
        return Err(ProviderFailed), step;
      }
      var put := Put(SnapshotKey(name), SnapshotObject(plan.snapshot, checksum));
      assert CallsOf(c, packSize, op) == made + [put];
      var ok := provider.Upload(SnapshotKey(name), SnapshotObject(plan.snapshot, checksum));
      if !ok {
        step := Step(op, |made|, Stopped);
        assert Made(c, packSize, step) == made;
        return Err(ProviderFailed), step;
      }
      ApplySnoc(objects, made, put);
      step := Step(op, |made| + 1, Stopped);
      assert Made(c, packSize, step) == made + [put];
      var reused := CountReused(plan, newIds, objects, us);
      return Ok(UploadResult(|plan.order|, |newIds|, reused)), step;
    }
  }

  lemma StoredOne(c: Primitives, closed: seq<seq<EncodedChunk>>, group: seq<EncodedChunk>)
    ensures PackCalls(c, closed + [group]) == PackCalls(c, closed) + StoreCalls(c, group)
    ensures Ids(Flatten(closed + [group])) == Ids(Flatten(closed)) + Ids(group)
  {
    assert (closed + [group])[..|closed|] == closed;
    FlattenSnoc(closed, group);
    assert Ids(Flatten(closed) + group) == Ids(Flatten(closed)) + Ids(group);
  }

  /** Some first packs are stored, and the next one met a failed flush. */
  ghost predicate PartlyStored(c: Primitives, groups: seq<seq<EncodedChunk>>, made: seq<Call>) {
    exists k, tail :: 0 <= k < |groups| && FlushFailed(c, groups[k], tail) && made == PackCalls(c, groups[..k]) + tail
  }

  lemma StoppedAt(c: Primitives, groups: seq<seq<EncodedChunk>>, closed: seq<seq<EncodedChunk>>,
                  group: seq<EncodedChunk>, tail: seq<Call>)
    requires closed + [group] <= groups && FlushFailed(c, group, tail)
    ensures PartlyStored(c, groups, PackCalls(c, closed) + tail)
  {
    assert groups[|closed|] == group && groups[..|closed|] == closed;
  }

  lemma NothingStored(c: Primitives, packSize: int, objects: Objects, plan: Plan) returns (us: seq<EncodedChunk>)
    requires ValidPlan(c, plan)
    ensures Prepared(c, objects, plan, us) && ApplyAll(objects, []) == objects
  {
    us := CompleteEncodings(c, objects, plan, []);
  }

  /** A failed flush, as a step: how many calls were made and how the last one ended. */
  lemma FailedStep(c: Primitives, packSize: int, op: Operation, made: seq<Call>) returns (step: Step)
    requires op.UploadSnapshot? && PartlyStored(c, Grouped(op.us, packSize), made)
    ensures step.op == op && step.cut <= |CallsOf(c, packSize, op)| && Made(c, packSize, step) == made
  {
    hide Grouped, DigestOf, PackBytes, Layout;
    var groups := Grouped(op.us, packSize);
    var calls := CallsOf(c, packSize, op);
    var k: nat, tail: seq<Call> :| 0 <= k < |groups| && FlushFailed(c, groups[k], tail)
        && made == PackCalls(c, groups[..k]) + tail;
    PackCallsPrefix(c, groups, k);
    PackCallsPrefix(c, groups, |groups|);
    var before := PackCalls(c, groups[..k]);
    assert calls[..2 * k] == before;
    assert calls[2 * k] == StoreCalls(c, groups[k])[0] && calls[2 * k + 1] == StoreCalls(c, groups[k])[1];
    assert calls[..2 * k + 1] == before + StoreCalls(c, groups[k])[..1];
    if tail == [] {
      step := Step(op, 2 * k, Stopped);
    } else if tail == StoreCalls(c, groups[k])[..1] {
      step := Step(op, 2 * k + 1, Stopped);
    } else {
      step := Step(op, 2 * k + 1, IndexRefused);
    }
  }
}
