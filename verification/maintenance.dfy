/** Pruning, as methods over a provider. */
module Maintenance {
  import opened ByteStrings
  import opened Listings
  import opened Codec
  import opened Packs
  import opened Store
  import opened Calls
  import opened Prune
  import opened Restore
  import opened Runs
  import opened Repository

  datatype PruneResult = PruneResult(deletedIndexes: nat, deletedPacks: nat, reclaimedBytes: nat)

  // ------------------------------------------------------------ the listings a prune walks

  ghost function DeadAmong(objects: Objects, digests: seq<nat>): seq<nat> {
    if digests == [] then []
    else
      var d := digests[|digests| - 1];
      DeadAmong(objects, digests[..|digests| - 1]) + if Dead(objects, d) then [d] else []
  }

  ghost function OrphansAmong(objects: Objects, digests: seq<nat>): seq<nat> {
    if digests == [] then []
    else
      var d := digests[|digests| - 1];
      OrphansAmong(objects, digests[..|digests| - 1]) + if Orphan(objects, d) then [d] else []
  }

  lemma {:induction false} AmongExactly(objects: Objects, digests: seq<nat>)
    requires Distinct(digests)
    ensures Distinct(DeadAmong(objects, digests)) && Distinct(OrphansAmong(objects, digests))
    ensures forall d :: d in DeadAmong(objects, digests) <==> d in digests && Dead(objects, d)
    ensures forall d :: d in OrphansAmong(objects, digests) <==> d in digests && Orphan(objects, d)
  {
    hide Dead, Orphan;
    if digests != [] {
      AmongExactly(objects, digests[..|digests| - 1]);
      assert digests == digests[..|digests| - 1] + [digests[|digests| - 1]];
    }
  }

  lemma AmongNext(objects: Objects, digests: seq<nat>, n: nat)
    requires n < |digests|
    ensures DeadAmong(objects, digests[..n + 1]) ==
      DeadAmong(objects, digests[..n]) + if Dead(objects, digests[n]) then [digests[n]] else []
    ensures OrphansAmong(objects, digests[..n + 1]) ==
      OrphansAmong(objects, digests[..n]) + if Orphan(objects, digests[n]) then [digests[n]] else []
  {
    assert digests[..n + 1][..n] == digests[..n];
  }

  lemma {:induction false} AmongPrefix(objects: Objects, digests: seq<nat>, n: nat)
    requires n <= |digests|
    ensures DeadAmong(objects, digests[..n]) <= DeadAmong(objects, digests)
    ensures OrphansAmong(objects, digests[..n]) <= OrphansAmong(objects, digests)
    decreases |digests| - n
  {
    if n == |digests| {
      assert digests[..n] == digests;
    } else {
      AmongNext(objects, digests, n);
      AmongPrefix(objects, digests, n + 1);
    }
  }

  lemma {:induction false} DeadCallsPrefix(dead: seq<nat>, k: nat)
    requires k <= |dead|
    ensures |DeadCalls(dead)| == 2 * |dead|
    ensures DeadCalls(dead)[..2 * k] == DeadCalls(dead[..k])
    ensures k < |dead| ==>
      DeadCalls(dead)[2 * k] == Delete(IndexKey(dead[k])) && DeadCalls(dead)[2 * k + 1] == Delete(PackKey(dead[k]))
  {
    if dead != [] {
      var init := dead[..|dead| - 1];
      if k < |dead| {
        DeadCallsPrefix(init, k);
        assert init[..k] == dead[..k];
      } else {
        DeadCallsPrefix(init, |init|);
        assert dead[..k] == dead;
      }
    }
  }

  lemma ListedOrders(objects: Objects, digests: seq<nat>, packs: seq<nat>)
    requires Distinct(digests) && Distinct(packs)
    requires forall d :: d in digests <==> IndexKey(d) in objects
    requires forall d :: d in packs <==> PackKey(d) in objects
    ensures PruneOrders(objects, DeadAmong(objects, digests), OrphansAmong(objects, packs))
  {
    AmongExactly(objects, digests);
    AmongExactly(objects, packs);
  }

  /** A prune that got through the first `n` indexes, or that and one more index deletion. */
  lemma DeadStep(objects: Objects, digests: seq<nat>, packs: seq<nat>, n: nat, half: bool)
    returns (cut: nat)
    requires n <= |digests| && (half ==> n < |digests| && Dead(objects, digests[n]))
    ensures var calls := PruneCalls(DeadAmong(objects, digests), OrphansAmong(objects, packs));
      var made := DeadCalls(DeadAmong(objects, digests[..n]));
      && cut <= |calls|
      && calls[..cut] == if half then made + [Delete(IndexKey(digests[n]))] else made
  {
    var dead, sofar := DeadAmong(objects, digests), DeadAmong(objects, digests[..n]);
    AmongPrefix(objects, digests, n);
    DeadCallsPrefix(dead, |sofar|);
    assert dead[..|sofar|] == sofar;
    cut := 2 * |sofar|;
    if half {
      AmongNext(objects, digests, n);
      AmongPrefix(objects, digests, n + 1);
      assert dead[|sofar|] == digests[n];
      cut := cut + 1;
    }
  }

  /** The calls of a prune whose second pass has deleted these orphans. */
  ghost function MadeSoFar(objects: Objects, digests: seq<nat>, gone: seq<nat>): seq<Call> {
    DeadCalls(DeadAmong(objects, digests)) + OrphanCalls(gone)
  }

  lemma MadeOneMore(objects: Objects, digests: seq<nat>, gone: seq<nat>, d: nat, before: seq<Call>)
    ensures MadeSoFar(objects, digests, gone + [d]) == MadeSoFar(objects, digests, gone) + [Delete(PackKey(d))]
    ensures ApplyAll(objects, MadeSoFar(objects, digests, gone + [d])) ==
      Apply(ApplyAll(objects, MadeSoFar(objects, digests, gone)), Delete(PackKey(d)))
    ensures before + MadeSoFar(objects, digests, gone + [d]) == before + MadeSoFar(objects, digests, gone)
        + [Delete(PackKey(d))]
  {
    assert OrphanCalls(gone + [d]) == OrphanCalls(gone) + [Delete(PackKey(d))];
    ApplySnoc(objects, MadeSoFar(objects, digests, gone), Delete(PackKey(d)));
  }

  lemma OrphanStep(objects: Objects, digests: seq<nat>, packs: seq<nat>, n: nat) returns (cut: nat)
    requires n <= |packs|
    ensures var calls := PruneCalls(DeadAmong(objects, digests), OrphansAmong(objects, packs));
      && cut <= |calls|
      && calls[..cut] == MadeSoFar(objects, digests, OrphansAmong(objects, packs[..n]))
      && (n == |packs| ==> cut == |calls|)
  {
    AmongPrefix(objects, packs, n);
    assert n == |packs| ==> packs[..n] == packs;
    cut := |DeadCalls(DeadAmong(objects, digests))| + |OrphansAmong(objects, packs[..n])|;
  }

  lemma DeadCallsSnoc(dead: seq<nat>, d: nat)
    ensures DeadCalls(dead + [d]) == DeadCalls(dead) + [Delete(IndexKey(d))] + [Delete(PackKey(d))]
  {
    assert (dead + [d])[..|dead|] == dead;
  }

  // ------------------------------------------------------------ what is live

  /** Reads every snapshot; one that cannot be read stops the prune before it deletes anything. */
  method LiveChunks(c: Primitives, objects: Objects) returns (r: Result<set<ChunkId>, RepositoryError>)
    ensures r.Ok? <==> forall name :: SnapshotKey(name) in objects ==> ReadSnapshot(c, objects, name, None).Ok?
    ensures r.Ok? ==> forall id :: id in r.value <==> Live(objects, id)
  {
    hide ValidSnapshot;
    var todo := set k | k in objects && k.SnapshotKey? :: k.name;
    assert forall name :: name in todo <==> SnapshotKey(name) in objects by {
      forall name | SnapshotKey(name) in objects ensures name in todo {
        assert SnapshotKey(name).name == name;
      }
    }
    var names := todo;
    var live: set<ChunkId> := {};
    while todo != {}
      invariant todo <= names
      invariant forall name :: name in names - todo ==> ReadSnapshot(c, objects, name, None).Ok?
      invariant forall id :: id in live <==> exists name :: name in names - todo && Needs(objects, name, id)
      decreases todo
    {
      var name :| name in todo;
      var snapshot := ReadSnapshot(c, objects, name, None);
      if snapshot.Err? {
        assert name in names;
        return Err(snapshot.error);
      }
      ghost var before, done := live, names - todo;
      live := live + ChunksOf(snapshot.value);
      todo := todo - {name};
      assert names - todo == done + {name};
      forall id ensures id in live <==> exists n :: n in names - todo && Needs(objects, n, id) {
        assert id in ChunksOf(snapshot.value) <==> Needs(objects, name, id);
        if id in live && id in before {
          var n :| n in done && Needs(objects, n, id);
          assert n in names - todo;
        }
      }
    }
    forall id ensures id in live <==> Live(objects, id) {
      if Live(objects, id) {
        var name :| SnapshotKey(name) in objects && objects[SnapshotKey(name)].SnapshotObject?
                    && id in ChunksOf(objects[SnapshotKey(name)].snapshot);
        assert name in names && Needs(objects, name, id);
      }
    }
    return Ok(live);
  }

  ghost predicate Needs(objects: Objects, name: string, id: ChunkId) {
    SnapshotKey(name) in objects && objects[SnapshotKey(name)].SnapshotObject?
    && id in ChunksOf(objects[SnapshotKey(name)].snapshot)
  }

  // ------------------------------------------------------------ the accounts kept on the way

  ghost function Members(s: seq<nat>): set<nat> {
    set d | d in s
  }

  /** After the first `n` indexes: which packs are kept, which are still to be looked at, what is reclaimed. */
  ghost predicate Swept(objects: Objects, digests: seq<nat>, n: nat, kept: set<nat>, sizes: map<nat, nat>,
                        reclaimed: nat)
    requires n <= |digests|
  {
    && (forall d :: d in kept <==> d in digests[..n] && !Dead(objects, d))
    && sizes == PackSizes(objects) - Members(DeadAmong(objects, digests[..n]))
    && Total(PackSizes(objects)) == Total(sizes) + reclaimed
  }

  lemma SweptStarts(objects: Objects, digests: seq<nat>)
    ensures Swept(objects, digests, 0, {}, PackSizes(objects), 0)
    ensures DeadAmong(objects, digests[..0]) == [] && DeadCalls([]) == [] && ApplyAll(objects, []) == objects
  {
    assert PackSizes(objects) - Members([]) == PackSizes(objects);
  }

  lemma SweptOne(objects: Objects, digests: seq<nat>, n: nat, kept: set<nat>, sizes: map<nat, nat>, reclaimed: nat)
    requires n < |digests| && Swept(objects, digests, n, kept, sizes, reclaimed)
    ensures !Dead(objects, digests[n]) ==> Swept(objects, digests, n + 1, kept + {digests[n]}, sizes, reclaimed)
    ensures Dead(objects, digests[n]) ==>
      Swept(objects, digests, n + 1, kept, sizes - {digests[n]}, reclaimed + if digests[n] in sizes
          then sizes[digests[n]] else 0)
  {
    hide Dead, Total, PackSizes;
    var d := digests[n];
    AmongNext(objects, digests, n);
    assert digests[..n + 1] == digests[..n] + [d];
    if Dead(objects, d) {
      var gone := DeadAmong(objects, digests[..n]);
      assert Members(gone + [d]) == Members(gone) + {d};
      assert PackSizes(objects) - Members(gone + [d]) == sizes - {d};
      if d in sizes {
        TotalWithout(sizes, d);
      } else {
        assert sizes - {d} == sizes;
      }
    } else {
      assert DeadAmong(objects, digests[..n + 1]) == DeadAmong(objects, digests[..n]);
    }
  }

  /** After the first `n` packs of the second pass. */
  ghost predicate Collected(objects: Objects, sizes: map<nat, nat>, packs: seq<nat>, n: nat, reclaimed: nat)
    requires n <= |packs|
  {
    Total(PackSizes(objects)) == Total(sizes - Members(OrphansAmong(objects, packs[..n]))) + reclaimed
  }

  lemma CollectedStarts(objects: Objects, sizes: map<nat, nat>, packs: seq<nat>, reclaimed: nat)
    requires Total(PackSizes(objects)) == Total(sizes) + reclaimed
    ensures Collected(objects, sizes, packs, 0, reclaimed)
    ensures OrphansAmong(objects, packs[..0]) == [] && OrphanCalls([]) == []
  {
    assert sizes - Members([]) == sizes;
  }

  /** Where the second pass starts from. */
  lemma CollectionStarts(objects: Objects, digests: seq<nat>, packs: seq<nat>, kept: set<nat>, sizes: map<nat, nat>,
                         reclaimed: nat)
    requires Listed(objects, digests, packs) && Swept(objects, digests, |digests|, kept, sizes, reclaimed)
    ensures Collected(objects, sizes, packs, 0, reclaimed) && Distinct(packs) && OrphansAmong(objects, packs[..0]) == []
    ensures MadeSoFar(objects, digests, []) == DeadCalls(DeadAmong(objects, digests))
    ensures sizes - Members(OrphansAmong(objects, packs)) == PackSizes(Pruned(objects))
  {
    RestIsPruned(objects, digests, packs, kept, sizes, reclaimed);
    hide Live, PackSizes, DeadAmong, OrphansAmong;
    CollectedStarts(objects, sizes, packs, reclaimed);
  }

  lemma CollectedOne(objects: Objects, sizes: map<nat, nat>, packs: seq<nat>, n: nat, reclaimed: nat)
    requires n < |packs| && Distinct(packs) && Collected(objects, sizes, packs, n, reclaimed)
    ensures !Orphan(objects, packs[n]) ==> Collected(objects, sizes, packs, n + 1, reclaimed)
    ensures Orphan(objects, packs[n]) && packs[n] in sizes
        ==> Collected(objects, sizes, packs, n + 1, reclaimed + sizes[packs[n]])
  {
    hide Total, PackSizes, Orphan;
    var d := packs[n];
    AmongNext(objects, packs, n);
    if Orphan(objects, d) && d in sizes {
      var gone := OrphansAmong(objects, packs[..n]);
      AmongExactly(objects, packs[..n]);
      assert Members(gone + [d]) == Members(gone) + {d};
      TotalWithout(sizes - Members(gone), d);
      assert (sizes - Members(gone)) - {d} == sizes - Members(gone + [d]);
    } else if !Orphan(objects, d) {
      assert OrphansAmong(objects, packs[..n + 1]) == OrphansAmong(objects, packs[..n]);
    }
  }

  ghost predicate Listed(objects: Objects, digests: seq<nat>, packs: seq<nat>) {
    && Distinct(digests) && (forall d :: d in digests <==> IndexKey(d) in objects)
    && Distinct(packs) && (forall d :: d in packs <==> PackKey(d) in objects)
    && (forall d :: PackKey(d) in objects ==> objects[PackKey(d)].PackObject?)
  }

  /** The second pass deletes exactly the orphans. */
  lemma RestIsOrphan(objects: Objects, digests: seq<nat>, packs: seq<nat>, kept: set<nat>, sizes: map<nat, nat>,
                     reclaimed: nat, d: nat)
    requires Listed(objects, digests, packs) && Swept(objects, digests, |digests|, kept, sizes, reclaimed) && d in packs
    ensures d in sizes && d !in kept <==> Orphan(objects, d)
  {
    hide Total, Live;
    assert digests[..|digests|] == digests;
    AmongExactly(objects, digests);
    assert PackKey(d) in objects;
    assert d in PackSizes(objects);
  }

  lemma PrunedSize(objects: Objects, d: nat)
    ensures d in PackSizes(Pruned(objects)) <==> d in PackSizes(objects) && IndexKey(d) in objects && !Dead(objects, d)
    ensures d in PackSizes(Pruned(objects)) ==> PackSizes(Pruned(objects))[d] == PackSizes(objects)[d]
    ensures d in PackSizes(objects) ==> PackKey(d) in objects
  {
    hide Dead;
    if PackKey(d) in objects {
      assert PackKey(d).digest == d;
    }
  }

  /** When both passes are through, the packs not deleted are those of the pruned repository. */
  lemma RestIsPruned(objects: Objects, digests: seq<nat>, packs: seq<nat>, kept: set<nat>, sizes: map<nat, nat>,
                     reclaimed: nat)
    requires Listed(objects, digests, packs) && Swept(objects, digests, |digests|, kept, sizes, reclaimed)
    ensures sizes - Members(OrphansAmong(objects, packs)) == PackSizes(Pruned(objects))
  {
    hide Total, Dead, PackSizes, Pruned, DeadAmong, OrphansAmong;
    assert digests[..|digests|] == digests;
    AmongExactly(objects, digests);
    AmongExactly(objects, packs);
    var dead, orphans := DeadAmong(objects, digests), OrphansAmong(objects, packs);
    forall d ensures d in sizes - Members(orphans) <==> d in PackSizes(Pruned(objects)) {
      PrunedSize(objects, d);
      DeadIsListed(objects, d);
    }
    forall d | d in PackSizes(Pruned(objects)) ensures PackSizes(Pruned(objects))[d] == sizes[d] {
      PrunedSize(objects, d);
    }
  }

  lemma DeadIsListed(objects: Objects, d: nat)
    ensures Dead(objects, d) ==> IndexKey(d) in objects
  {
  }

  lemma DeadIff(objects: Objects, d: nat, live: set<ChunkId>, packSize: int)
    requires ReadSegment(objects, d, packSize).Ok?
    requires forall id :: id in live <==> Live(objects, id)
    ensures (exists id :: id in ReadSegment(objects, d, packSize).value.chunks && id in live) <==> !Dead(objects, d)
  {
    assert ReadSegment(objects, d, packSize).value.chunks == SegmentChunks(objects, d);
  }

  lemma Listing(objects: Objects, digests: seq<nat>, packs: seq<nat>)
    requires forall d :: PackKey(d) in objects ==> objects[PackKey(d)].PackObject?
    requires Distinct(digests) && forall d :: d in digests <==> d in IndexDigests(objects)
    requires Distinct(packs) && forall d :: d in packs <==> d in PackSizes(objects)
    ensures Listed(objects, digests, packs)
  {
    forall d | IndexKey(d) in objects ensures d in IndexDigests(objects) {
      assert IndexKey(d).digest == d;
    }
    forall d | PackKey(d) in objects ensures d in PackSizes(objects) {
      assert PackKey(d).digest == d;
    }
  }

  class RepositoryMaintenance {
    const c: Primitives
    const packSize: int

    constructor (c: Primitives, packSize: int)
      ensures this.c == c && this.packSize == packSize
    {
      this.c, this.packSize := c, packSize;
    }

    /** First pass: each dead index object, followed by its pack. */
    method DeleteDead(provider: Provider, objects: Objects, live: set<ChunkId>, digests: seq<nat>,
                      ghost packs: seq<nat>)
      returns (error: Option<RepositoryError>, indexes: nat, kept: set<nat>, sizes: map<nat, nat>, reclaimed: nat,
          ghost cut: nat)
      requires provider.objects == objects && Listed(objects, digests, packs)
      requires forall id :: id in live <==> Live(objects, id)
      modifies provider
      ensures var calls := PruneCalls(DeadAmong(objects, digests), OrphansAmong(objects, packs));
        && cut <= |calls|
        && provider.calls == old(provider.calls) + calls[..cut]
        && provider.objects == ApplyAll(objects, calls[..cut])
        && (error.None? ==> calls[..cut] == DeadCalls(DeadAmong(objects, digests)))
      ensures error.None? ==> indexes == |DeadAmong(objects, digests)|
      ensures error.None? ==> Swept(objects, digests, |digests|, kept, sizes, reclaimed)
    {
      SweptStarts(objects, digests);
      hide Dead, DeadAmong, OrphansAmong, DeadCalls, OrphanCalls, PruneCalls, ApplyAll, Swept, Total, PackSizes,
        ReadSegment, Listed, Live;
      ghost var made: seq<Call> := [];
      sizes, kept, indexes, reclaimed := PackSizes(objects), {}, 0, 0;
      ghost var deadSoFar := DeadAmong(objects, digests[..0]);
      for n := 0 to |digests|
        invariant deadSoFar == DeadAmong(objects, digests[..n])
        invariant made == DeadCalls(deadSoFar)
        invariant provider.calls == old(provider.calls) + made
        invariant provider.objects == ApplyAll(objects, made)
        invariant indexes == |deadSoFar|
        invariant Swept(objects, digests, n, kept, sizes, reclaimed)
      {
        var d := digests[n];
        AmongNext(objects, digests, n);
        SweptOne(objects, digests, n, kept, sizes, reclaimed);
        ghost var begun := DeadStep(objects, digests, packs, n, false);
        var segment := ReadSegment(objects, d, packSize);
        if segment.Err? {
          return Some(segment.error), indexes, kept, sizes, reclaimed, begun;
        }
        DeadIff(objects, d, live, packSize);
        var keep := exists id :: id in segment.value.chunks && id in live;
        if keep {
          kept := kept + {d};
          continue;
        }
        ghost var half := DeadStep(objects, digests, packs, n, true);
        DeadCallsSnoc(deadSoFar, d);
        ApplySnoc(objects, made, Call.Delete(IndexKey(d)));
        ApplySnoc(objects, made + [Call.Delete(IndexKey(d))], Call.Delete(PackKey(d)));
        var ok := provider.Delete(IndexKey(d));
        if !ok {
          return Some(ProviderFailed), indexes, kept, sizes, reclaimed, begun;
        }
        indexes := indexes + 1;
        ok := provider.Delete(PackKey(d));
        if !ok {
          return Some(ProviderFailed), indexes, kept, sizes, reclaimed, half;
        }
        made := made + [Call.Delete(IndexKey(d))] + [Call.Delete(PackKey(d))];
        deadSoFar := deadSoFar + [d];
        reclaimed := reclaimed + if d in sizes then sizes[d] else 0;
        sizes := sizes - {d};
      }
      cut := DeadStep(objects, digests, packs, |digests|, false);
      assert digests[..|digests|] == digests;
      error := None;
    }

    /** Second pass: packs that no kept index object describes. */
    method DeleteOrphans(provider: Provider, ghost objects: Objects, ghost before: seq<Call>, ghost digests: seq<nat>,
                         packs: seq<nat>, kept: set<nat>, sizes: map<nat, nat>, reclaimedBefore: nat)
      returns (error: Option<RepositoryError>, deleted: nat, reclaimed: nat, ghost cut: nat)
      requires Listed(objects, digests, packs) && Swept(objects, digests, |digests|, kept, sizes, reclaimedBefore)
      requires provider.calls == before + DeadCalls(DeadAmong(objects, digests))
      requires provider.objects == ApplyAll(objects, DeadCalls(DeadAmong(objects, digests)))
      modifies provider
      ensures var calls := PruneCalls(DeadAmong(objects, digests), OrphansAmong(objects, packs));
        && cut <= |calls| && (error.None? ==> cut == |calls|)
        && provider.calls == before + calls[..cut]
        && provider.objects == ApplyAll(objects, calls[..cut])
      ensures error.None? ==> deleted == |OrphansAmong(objects, packs)|
      ensures error.None? ==> Total(PackSizes(objects)) == Total(PackSizes(Pruned(objects))) + reclaimed
    {
      hide *;
      CollectionStarts(objects, digests, packs, kept, sizes, reclaimedBefore);
      deleted, reclaimed := 0, reclaimedBefore;
      ghost var gone := OrphansAmong(objects, packs[..0]);
      for n := 0 to |packs|
        invariant gone == OrphansAmong(objects, packs[..n]) && deleted == |gone|
        invariant provider.calls == before + MadeSoFar(objects, digests, gone)
        invariant provider.objects == ApplyAll(objects, MadeSoFar(objects, digests, gone))
        invariant Collected(objects, sizes, packs, n, reclaimed)
      {
        var d := packs[n];
        RestIsOrphan(objects, digests, packs, kept, sizes, reclaimedBefore, d);
        AmongNext(objects, packs, n);
        CollectedOne(objects, sizes, packs, n, reclaimed);
        if d !in sizes || d in kept {
          continue;
        }
        MadeOneMore(objects, digests, gone, d, before);
        cut := OrphanStep(objects, digests, packs, n);
        var ok := provider.Delete(PackKey(d));
        if !ok {
          return Some(ProviderFailed), deleted, reclaimed, cut;
        }
        gone := gone + [d];
        deleted := deleted + 1;
        reclaimed := reclaimed + sizes[d];
      }
      cut := OrphanStep(objects, digests, packs, |packs|);
      assert packs[..|packs|] == packs;
      CollectedEnds(objects, sizes, packs, reclaimed);
      error := None;
    }

    /**
     Deletes what no snapshot reaches: dead index objects each followed by their pack, then
     packs without an index. A prune that reports success has left exactly `Pruned`, and
     counts what it removed; an unreadable snapshot stops it before the first deletion.
     */
    method Prune(provider: Provider) returns (r: Result<PruneResult, RepositoryError>, ghost step: Step)
      requires forall d :: PackKey(d) in provider.objects ==> provider.objects[PackKey(d)].PackObject?
      modifies provider
      ensures step.op.PruneAll? && PruneOrders(old(provider.objects), step.op.dead, step.op.orphans)
      ensures step.cut <= |CallsOf(c, packSize, step.op)|
      ensures provider.calls == old(provider.calls) + Made(c, packSize, step)
      ensures provider.objects == ApplyAll(old(provider.objects), Made(c, packSize, step))
      ensures r.Ok? ==> provider.objects == Pruned(old(provider.objects))
      ensures r.Ok? ==>
        r.value == PruneResult(|step.op.dead|, |step.op.dead| + |step.op.orphans|,
                               ReclaimedBytes(old(provider.objects)))
      ensures !SnapshotsReadable(c, old(provider.objects)) ==> r.Err? && Made(c, packSize, step) == []
    {
      hide Dead, Orphan, DeadAmong, OrphansAmong, DeadCalls, OrphanCalls, PruneCalls, ApplyAll, Swept, Total,
        PackSizes, Listed, Live, Pruned, PruneOrders, ReadSnapshot, ReclaimedBytes;
      var objects := provider.objects;
      var digests := InAnyOrder(IndexDigests(objects));
      var packs := InAnyOrder(PackSizes(objects).Keys);
      Listing(objects, digests, packs);
      ListedOrders(objects, digests, packs);
      ghost var dead, orphans := DeadAmong(objects, digests), OrphansAmong(objects, packs);
      ghost var op := PruneAll(dead, orphans);
      ghost var before := provider.calls;
      var live := LiveChunks(c, objects);
      if live.Err? {
        step := Step(op, 0, Stopped);
        assert Made(c, packSize, step) == [];
        SweptStarts(objects, digests);
        return Err(live.error), step;
      }
      var error, indexes, kept, sizes, reclaimed, deleted;
      ghost var cut;
      error, indexes, kept, sizes, reclaimed, cut := DeleteDead(provider, objects, live.value, digests, packs);
      step := Step(op, cut, Stopped);
      if error.Some? {
        return Err(error.value), step;
      }
      error, deleted, reclaimed,
          cut := DeleteOrphans(provider, objects, before, digests, packs, kept, sizes, reclaimed);
      step := Step(op, cut, Stopped);
      if error.Some? {
        return Err(error.value), step;
      }
      assert PruneCalls(dead, orphans)[..cut] == PruneCalls(dead, orphans);
      PruneIsExact(objects, dead, orphans);
      PruneConservesBytes(objects);
      return Ok(PruneResult(indexes, indexes + deleted, reclaimed)), step;
    }
  }

  ghost predicate SnapshotsReadable(c: Primitives, objects: Objects) {
    forall name :: SnapshotKey(name) in objects ==> ReadSnapshot(c, objects, name, None).Ok?
  }

  lemma CollectedEnds(objects: Objects, sizes: map<nat, nat>, packs: seq<nat>, reclaimed: nat)
    requires Collected(objects, sizes, packs, |packs|, reclaimed)
    ensures Total(PackSizes(objects)) == Total(sizes - Members(OrphansAmong(objects, packs))) + reclaimed
  {
    assert packs[..|packs|] == packs;
  }
}
