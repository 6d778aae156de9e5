/** The runner that archives a walk, and the target an archive is restored to. */
module FileRunners {
  import opened ArchiveNames
  import opened ByteStrings
  import opened DifferentialBackup
  import opened Links
  import opened Listings
  import opened Paths

  // ------------------------------------------------------------ the runner

  datatype ManifestEntry = ManifestEntry(path: string, mark: Fingerprint)

  function BaseIndex(entries: seq<ManifestEntry>): Base {
    if entries == [] then map[]
    else BaseIndex(entries[..|entries| - 1])[entries[|entries| - 1].path := entries[|entries| - 1].mark]
  }

  lemma BaseIndexSnoc(entries: seq<ManifestEntry>, last: ManifestEntry)
    ensures BaseIndex(entries + [last]) == BaseIndex(entries)[last.path := last.mark]
  {
    assert (entries + [last])[..|entries|] == entries;
  }

  method IndexBase(entries: seq<ManifestEntry>) returns (base: Base)
    ensures base == BaseIndex(entries)
  {
    base := map[];
    for i := 0 to |entries|
      invariant base == BaseIndex(entries[..i])
    {
      assert entries[..i + 1][..i] == entries[..i];
      base := base[entries[i].path := entries[i].mark];
    }
    assert entries[..|entries|] == entries;
  }

  /** The base paths that were not seen, in ascending order. */
  method DeletedPaths(base: Base, seen: set<string>) returns (deleted: seq<string>)
    ensures Set(deleted) == base.Keys - seen && InOrder(deleted)
  {
    var missing: set<string> := {};
    var todo := base.Keys;
    while todo != {}
      invariant todo <= base.Keys && missing == (base.Keys - todo) - seen
      decreases todo
    {
      var p :| p in todo;
      if p !in seen {
        missing := missing + {p};
      }
      todo := todo - {p};
    }
    deleted := SortedNames(missing);
  }

  class FileRunner {
    const sourceRoots: set<string>
    const excluded: Exclusion

    constructor (roots: set<string>, excluded: Exclusion)
      ensures sourceRoots == roots && this.excluded == excluded
    {
      sourceRoots, this.excluded := roots, excluded;
    }

    /** The run archives this node. */
    predicate Keeps(base: Option<Base>, item: Item) {
      && Visited(sourceRoots, excluded, item.path, item.node.Dir?)
      && (base.None? || ChangedSince(base.value, item.path, item.node))
    }

    /** The nodes the run archives, in the order the walks come to them. */
    function Kept(listing: seq<Item>, base: Option<Base>): seq<Item> {
      if listing == [] then []
      else
        var last := listing[|listing| - 1];
        Kept(listing[..|listing| - 1], base) + if Keeps(base, last) then [last] else []
    }

    lemma KeptSnoc(listing: seq<Item>, item: Item, base: Option<Base>)
      ensures Kept(listing + [item], base) == Kept(listing, base) + if Keeps(base, item) then [item] else []
    {
      assert (listing + [item])[..|listing|] == listing;
    }

    /**
     The node is no root directory, neither it nor a directory above it is excluded, and it is
     new or, for a file, differs in size or time from what the base remembers.
     */
    ghost predicate Archives(base: Option<Base>, item: Item) {
      var isDir := item.node.Dir?;
      && !(item.path in sourceRoots && isDir) && !excluded(item.path, isDir)
      && (forall d :: d != "" && d + "/" <= item.path ==> !excluded(d, true))
      && (base.None? || item.path !in base.value
          || (!isDir && (base.value[item.path].size != |item.node.content|
                         || base.value[item.path].mtime != item.node.mtime)))
    }

    lemma {:induction false} KeptExactly(listing: seq<Item>, base: Option<Base>)
      ensures forall item :: item in Kept(listing, base) <==> item in listing && Archives(base, item)
      decreases |listing|
    {
      hide Keeps;
      if listing != [] {
        var init, last := listing[..|listing| - 1], listing[|listing| - 1];
        KeptExactly(init, base);
        ArchivesIfKept(base, last);
        assert forall item :: item in listing <==> item in init || item == last;
      }
    }

    lemma ArchivesIfKept(base: Option<Base>, item: Item)
      ensures Keeps(base, item) <==> Archives(base, item)
    {
      assert forall d :: d in Ancestors(item.path) <==> d != "" && d + "/" <= item.path;
    }

    /** What the run archives of distinct nodes, by name. */
    function Archived(listing: seq<Item>, base: Option<Base>): Entries {
      var walk := Walk(Index(listing), sourceRoots, excluded);
      if base.None? then walk else Difference(base.value, walk)
    }

    lemma NextNode(before: seq<Item>, item: Item, base: Option<Base>)
      requires DistinctPaths(before + [item])
      ensures item.path !in Names(before) && Names(before + [item]) == Names(before) + {item.path}
          && DistinctPaths(before)
      ensures Archived(before + [item], base) ==
                if Keeps(base, item) then Archived(before, base)[item.path := item.node] else Archived(before, base)
    {
      hide Index, Visited, ChangedSince, Names, DistinctPaths;
      assert (before + [item])[..|before|] == before;
      DistinctPrefix(before + [item], |before|);
      LastIsNew(before, item);
      NamesSnoc(before, item);
      IndexSnoc(before, item);
      IndexNames(before);
    }

    /** Of distinct nodes the run archives exactly the walk, or its difference from the base. */
    lemma {:induction false} KeptIsArchived(listing: seq<Item>, base: Option<Base>)
      requires DistinctPaths(listing)
      ensures DistinctPaths(Kept(listing, base)) && Index(Kept(listing, base)) == Archived(listing, base)
      ensures Names(Kept(listing, base)) <= Names(listing)
      decreases |listing|
    {
      hide Index, Names, DistinctPaths, Keeps, Archived;
      if listing == [] {
        NothingArchived(base);
      } else {
        var init, last := listing[..|listing| - 1], listing[|listing| - 1];
        assert listing == init + [last];
        NextNode(init, last, base);
        KeptIsArchived(init, base);
        KeptSnoc(init, last, base);
        if Keeps(base, last) {
          NamesSnoc(Kept(init, base), last);
          IndexSnoc(Kept(init, base), last);
          DistinctSnoc(Kept(init, base), last);
        } else {
          assert Kept(init, base) + [] == Kept(init, base);
        }
      }
    }

    lemma NothingArchived(base: Option<Base>)
      ensures Archived([], base) == map[] && Index([]) == map[] && DistinctPaths([]) && Names([]) == {}
    {
      NoNames();
    }

    function Marks(items: seq<Item>): seq<ManifestEntry> {
      seq(|items|, i requires 0 <= i < |items| => ManifestEntry(items[i].path, FingerprintOf(items[i].node)))
    }

    /** The manifest that goes with a list of entries indexes to their fingerprints, the later entry winning in both. */
    lemma {:induction false} MarksIndex(items: seq<Item>)
      ensures BaseIndex(Marks(items)) == Manifest(Index(items))
    {
      if items != [] {
        var init, last := items[..|items| - 1], items[|items| - 1];
        MarksIndex(init);
        assert items == init + [last];
        MarksSnoc(init, last);
        BaseIndexSnoc(Marks(init), ManifestEntry(last.path, FingerprintOf(last.node)));
      }
    }

    lemma MarksSnoc(items: seq<Item>, last: Item)
      ensures Marks(items + [last]) == Marks(items) + [ManifestEntry(last.path, FingerprintOf(last.node))]
    {
    }

    /** What a run leaves, for any listing. */
    predicate RunsTo(listing: seq<Item>, base: Option<Base>, a: Archive, manifest: Option<seq<ManifestEntry>>) {
      && a.items == Kept(listing, base)
      && Set(a.deletions) == (if base.None? then {} else base.value.Keys - Names(Kept(listing, None)))
      && InOrder(a.deletions)
      && manifest == if base.None? then Some(Marks(Kept(listing, None))) else None
    }

    lemma EmptySet(paths: seq<string>)
      ensures Set(paths) == {} ==> paths == []
    {
      assert paths != [] ==> paths[0] in Set(paths);
    }

    /**
     When no archive name comes up twice, that is a full archive of the walk with its manifest,
     or the difference from the base.
     */
    lemma RunIsArchive(listing: seq<Item>, base: Option<Base>, a: Archive, manifest: Option<seq<ManifestEntry>>)
      requires RunsTo(listing, base, a, manifest) && DistinctPaths(listing)
      ensures var walk := Walk(Index(listing), sourceRoots, excluded);
        if base.Some? then IsDifferential(a, base.value, walk)
        else IsFull(a, walk) && BaseIndex(manifest.value) == Manifest(walk)
    {
      hide Index, Names, DistinctPaths, Kept, Walk, Difference;
      KeptIsArchived(listing, base);
      KeptIsArchived(listing, None);
      IndexNames(Kept(listing, None));
      MarksIndex(Kept(listing, None));
      EmptySet(a.deletions);
    }

    /**
     * Archives every visited node, and lists them in a manifest; or, against a base that is
     * not empty, archives what changed and lists what is gone.
     */
    method Run(listing: seq<Item>, baseEntries: seq<ManifestEntry>, wantDifferential: bool)
      returns (a: Archive, manifest: Option<seq<ManifestEntry>>)
      ensures var base := if wantDifferential && baseEntries != [] then Some(BaseIndex(baseEntries)) else None;
        && RunsTo(listing, base, a, manifest)
        && (forall item :: item in a.items <==> item in listing && Archives(base, item))
        && (forall p :: p in a.deletions <==>
              && base.Some? && p in base.value
              && !exists item :: item in listing && item.path == p && Archives(None, item))
    {
      hide Archives, Keeps, Names, BaseIndex, Visited, ChangedSince;
      var base := None;
      if wantDifferential && baseEntries != [] {
        var index := IndexBase(baseEntries);
        base := Some(index);
      }
      var items: seq<Item>, entries: seq<ManifestEntry>, seen: set<string> := [], [], {};
      NoNames();
      assert listing[..0] == [] && Marks([]) == [];
      for i := 0 to |listing|
        invariant items == Kept(listing[..i], base)
        invariant base.None? ==> entries == Marks(Kept(listing[..i], None))
        invariant base.Some? ==> seen == Names(Kept(listing[..i], None))
      {
        hide Kept, Marks;
        var item := listing[i];
        ghost var before := listing[..i];
        assert listing[..i + 1] == before + [item];
        KeptSnoc(before, item, base);
        KeptSnoc(before, item, None);
        MarksSnoc(Kept(before, None), item);
        NamesSnoc(Kept(before, None), item);
        KeepsIff(base, item);
        if !Visited(sourceRoots, excluded, item.path, item.node.Dir?) {
          NothingMore(Kept(before, base));
          NothingMore(Kept(before, None));
          continue;
        }
        var mark := FingerprintOf(item.node);
        if base.Some? {
          seen := seen + {item.path};
          if !ChangedSince(base.value, item.path, item.node) {
            NothingMore(Kept(before, base));
            continue;
          }
        } else {
          entries := entries + [ManifestEntry(item.path, mark)];
        }
        items := items + [item];
      }
      assert listing[..|listing|] == listing;
      var deletions: seq<string> := [];
      if base.Some? {
        deletions := DeletedPaths(base.value, seen);
      }
      a := Archive(items, deletions);
      manifest := if base.None? then Some(entries) else None;
      KeptExactly(listing, base);
      KeptExactly(listing, None);
      DeletedExactly(listing, base, deletions);
    }

    lemma DeletedExactly(listing: seq<Item>, base: Option<Base>, deletions: seq<string>)
      requires Set(deletions) == if base.None? then {} else base.value.Keys - Names(Kept(listing, None))
      ensures forall p :: p in deletions <==>
        && base.Some? && p in base.value
        && !exists item :: item in listing && item.path == p && Archives(None, item)
    {
      hide Archives, Kept;
      KeptExactly(listing, None);
      var kept := Kept(listing, None);
      forall p ensures p in Names(kept) <==> exists item :: item in listing && item.path == p && Archives(None, item) {
        if p in Names(kept) {
          var i :| 0 <= i < |kept| && kept[i].path == p;
          assert kept[i] in kept;
        }
        if item :| item in listing && item.path == p && Archives(None, item) {
          assert item in kept;
          var i :| 0 <= i < |kept| && kept[i] == item;
        }
      }
      assert forall p :: p in deletions <==> p in Set(deletions);
    }

    lemma KeepsIff(base: Option<Base>, item: Item)
      ensures Keeps(None, item) <==> Visited(sourceRoots, excluded, item.path, item.node.Dir?)
      ensures Keeps(base, item) <==> Visited(sourceRoots, excluded, item.path, item.node.Dir?)
                                     && (base.None? || ChangedSince(base.value, item.path, item.node))
    {
    }

    lemma NothingMore(items: seq<Item>)
      ensures items + [] == items
    {
    }
  }

  // ------------------------------------------------------------ restoring in place

  lemma NothingExtracted(t: Tree, selected: seq<string>)
    ensures Extract(t, Chosen([], selected)) == Ok(t)
  {
  }

  /** The next item of an archive is not wanted, or extracted into what there is. */
  lemma ExtractNext(t: Tree, items: seq<Item>, selected: seq<string>, i: nat)
    requires i < |items|
    ensures var before, after := Extract(t, Chosen(items[..i], selected)), Extract(t, Chosen(items[..i + 1], selected));
      after == if before.Err? || !Wanted(items[i].path, selected) then before else Put(before.value, items[i])
  {
    hide Put, Wanted;
    assert items[..i + 1][..i] == items[..i];
    var chosen := Chosen(items[..i], selected);
    if Wanted(items[i].path, selected) {
      assert (chosen + [items[i]])[..|chosen|] == chosen;
    } else {
      assert chosen + [] == chosen;
    }
  }

  lemma {:induction false} ExtractFails(t: Tree, items: seq<Item>, selected: seq<string>, i: nat)
    requires i <= |items| && Extract(t, Chosen(items[..i], selected)).Err?
    ensures Extract(t, Chosen(items, selected)).Err?
    decreases |items| - i
  {
    if i == |items| {
      assert items[..i] == items;
    } else {
      ExtractNext(t, items, selected, i);
      ExtractFails(t, items, selected, i + 1);
    }
  }

  lemma {:induction false} DeleteFails(t: Tree, paths: seq<string>, i: nat)
    requires i <= |paths| && Delete(t, paths[..i]).Err?
    ensures Delete(t, paths).Err?
    decreases |paths| - i
  {
    if i == |paths| {
      assert paths[..i] == paths;
    } else {
      assert paths[..i + 1][..i] == paths[..i];
      DeleteFails(t, paths, i + 1);
    }
  }

  class RestoreTarget {
    var tree: Tree

    constructor (tree: Tree)
      ensures this.tree == tree
    {
      this.tree := tree;
    }

    /** Creates one entry under just this name. */
    method LayEntry(item: Item) returns (ok: bool)
      modifies this
      ensures ok == Lay(old(tree), item).Ok? && (ok ==> tree == Lay(old(tree), item).value)
    {
      match item.node
      case Dir(_, _) =>
        var made := MkdirAll(tree, Ancestors(item.path) + {item.path});
        if made.Err? { return false; }
        tree := made.value;
        return true;
      case File(content, _) =>
        var made := MkdirAll(tree, Ancestors(item.path));
        if made.Err? { return false; }
        tree := made.value;
        if item.path in tree && tree[item.path] == DirAt { return false; }
        tree := tree[item.path := FileAt(content)];
        return true;
    }

    method PutEntry(item: Item) returns (ok: bool)
      modifies this
      ensures ok == Put(old(tree), item).Ok? && (ok ==> tree == Put(old(tree), item).value)
    {
      hide PlaceOf, Lay;
      match PlaceOf(item.path)
      case Skipped => return true;
      case Outside => return false;
      case Top => return item.node.Dir?;
      case At(name) =>
        ok := LayEntry(Item(name, item.node));
    }

    method ExtractAll(items: seq<Item>, selected: seq<string>) returns (ok: bool)
      modifies this
      ensures ok == Extract(old(tree), Chosen(items, selected)).Ok?
      ensures ok ==> tree == Extract(old(tree), Chosen(items, selected)).value
    {
      hide Put, Wanted, Extract, Chosen;
      NothingExtracted(tree, selected);
      assert items[..0] == [];
      for i := 0 to |items|
        invariant Extract(old(tree), Chosen(items[..i], selected)) == Ok(tree)
      {
        ExtractNext(old(tree), items, selected, i);
        if !Wanted(items[i].path, selected) {
          continue;
        }
        ok := PutEntry(items[i]);
        if !ok {
          ExtractFails(old(tree), items, selected, i + 1);
          return;
        }
      }
      assert items[..|items|] == items;
      return true;
    }

    static method FilterSelectedPaths(paths: seq<string>, selected: seq<string>) returns (filtered: seq<string>)
      ensures filtered == SelectedPaths(paths, selected)
      ensures forall p, elements :: LeadsTo(p, elements) ==>
        (p in filtered <==> p in paths && exists i :: 0 <= i < |selected| && AsksFor(selected[i], elements))
      ensures forall p :: Tidy(p) ==>
        (p in filtered <==> p in paths && exists i :: 0 <= i < |selected| && AsksFor(selected[i], Split(p)))
      ensures forall p :: p in filtered ==> multiset(filtered)[p] == multiset(paths)[p]
    {
      hide Selected, CleanName, LeadsTo, AsksFor, Tidy, Split;
      filtered := [];
      for i := 0 to |paths|
        invariant filtered == SelectedPaths(paths[..i], selected)
      {
        assert paths[..i + 1][..i] == paths[..i];
        if Selected(CleanName(paths[i]), selected) {
          filtered := filtered + [paths[i]];
        }
      }
      assert paths[..|paths|] == paths;
      SelectedExactly(paths, selected);
      forall p { SelectedAsOften(paths, selected, p); }
      forall p, elements | LeadsTo(p, elements)
        ensures Selected(CleanName(p), selected) <==>
          exists i :: 0 <= i < |selected| && AsksFor(selected[i], elements)
      {
        SelectedWhereItLeads(p, elements, selected);
      }
      forall p | Tidy(p) ensures LeadsTo(p, Split(p)) { TidyLeads(p); }
    }

    method ApplyDeletions(paths: seq<string>) returns (ok: bool)
      modifies this
      ensures ok == Delete(old(tree), paths).Ok? && (ok ==> tree == Delete(old(tree), paths).value)
    {
      hide RemoveAll;
      for i := 0 to |paths|
        invariant Delete(old(tree), paths[..i]) == Ok(tree)
      {
        assert paths[..i + 1][..i] == paths[..i];
        var removed := RemoveAll(tree, paths[i]);
        if removed.Err? {
          DeleteFails(old(tree), paths, i + 1);
          return false;
        }
        tree := removed.value;
      }
      assert paths[..|paths|] == paths;
      return true;
    }

    /** Extracts what is selected and only then deletes what is selected. */
    method RestoreArchive(a: Archive, selected: seq<string>) returns (ok: bool)
      modifies this
      ensures ok == Restore(old(tree), a, selected).Ok? && (ok ==> tree == Restore(old(tree), a, selected).value)
    {
      hide Extract, Delete, Chosen;
      ok := ExtractAll(a.items, selected);
      if !ok { return; }
      var pending := a.deletions;
      if selected != [] {
        pending := FilterSelectedPaths(pending, selected);
      }
      ok := ApplyDeletions(pending);
    }
  }
}
