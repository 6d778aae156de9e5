/** Exactly which snapshots can be restored, and what the restored tree holds. */
module Restorable {
  import opened ByteStrings
  import opened Codec
  import opened Links
  import opened Packs
  import opened Paths
  import opened Store
  import opened Restore
  import opened Validation

  /** The entries of an accepted snapshot. */
  ghost predicate Accepted(entries: seq<Entry>, encrypted: bool) {
    && (forall e :: e in entries ==> AcceptableEntry(e, encrypted))
    && (forall i, j :: 0 <= i < |entries| && 0 <= j < |entries| && entries[i].path == entries[j].path ==> i == j)
  }

  /** The entry's name can be given to a file, and its chunks read. */
  ghost predicate Writes(c: Primitives, objects: Objects, locations: map<ChunkId, Location>, e: Entry) {
    '\0' !in e.path && EntryNode(c, objects, locations, e).Ok?
  }

  /** Nothing that is not a directory has anything below it. */
  ghost predicate Clear(entries: seq<Entry>, selected: seq<string>) {
    forall f, e :: f in entries && e in entries && Wanted(f.path, selected) && Wanted(e.path, selected) ==>
      f.path in Ancestors(e.path) ==> f.kind == Directory
  }

  ghost predicate AllWrite(c: Primitives, objects: Objects, locations: map<ChunkId, Location>, entries: seq<Entry>,
                           selected: seq<string>)
  {
    forall e :: e in entries && Wanted(e.path, selected) ==> Writes(c, objects, locations, e)
  }

  /** Wanted entries as stored, links respelled, and directories above them. */
  ghost predicate Holding(c: Primitives, objects: Objects, locations: map<ChunkId, Location>, entries: seq<Entry>,
                          selected: seq<string>, tree: Tree)
  {
    && (forall name :: name in tree <==>
          exists e :: e in entries && Wanted(e.path, selected) && (name == e.path || name in Ancestors(e.path)))
    && (forall e :: e in entries && Wanted(e.path, selected) ==>
          && EntryNode(c, objects, locations, e).Ok? && e.path in tree
          && tree[e.path] == Relinked(e.path, EntryNode(c, objects, locations, e).value))
    && (forall name :: name in tree && (forall e :: e in entries && Wanted(e.path, selected) ==> e.path != name) ==>
          tree[name] == DirectoryNode)
  }

  lemma NodeKind(c: Primitives, objects: Objects, locations: map<ChunkId, Location>, e: Entry)
    requires EntryNode(c, objects, locations, e).Ok?
    ensures Relinked(e.path, EntryNode(c, objects, locations, e).value).DirectoryNode? <==> e.kind == Directory
  {
    hide FileBytes;
  }

  lemma NoLinkLeadsOutside(e: Entry, encrypted: bool)
    requires AcceptableEntry(e, encrypted) && '\0' !in e.path
    ensures !LeadsOutside(e)
  {
    hide Split, Resolve;
    EntryAcceptedIff(e, encrypted);
    if e.kind == Symlink {
      ResolveFree('\0', e.path, e.linkTarget);
    }
  }

  lemma InFront(entries: seq<Entry>, encrypted: bool)
    requires entries != [] && Accepted(entries, encrypted)
    ensures var front, last := entries[..|entries| - 1], entries[|entries| - 1];
      && Accepted(front, encrypted) && (forall e :: e in entries <==> e in front || e == last)
      && forall e :: e in front ==> e.path != last.path
  {
    hide AcceptableEntry;
    var front, last := entries[..|entries| - 1], entries[|entries| - 1];
    forall e | e in front ensures e.path != last.path {
      var i :| 0 <= i < |front| && front[i] == e;
      assert entries[i].path == e.path;
    }
  }

  /** The next entry can be written exactly if it writes and neither is below, nor above, something in its way. */
  lemma NextRestoresIff(c: Primitives, objects: Objects, locations: map<ChunkId, Location>, front: seq<Entry>, e: Entry,
                        selected: seq<string>, encrypted: bool, tree: Tree)
    requires Holding(c, objects, locations, front, selected, tree) && AcceptableEntry(e, encrypted)
    requires forall f :: f in front ==> f.path != e.path
    ensures RestoreEntry(c, objects, locations, tree, e).Ok? <==>
      && Writes(c, objects, locations, e)
      && forall f :: f in front && Wanted(f.path, selected) ==>
        && (f.path in Ancestors(e.path) ==> f.kind == Directory)
        && (e.path in Ancestors(f.path) ==> e.kind == Directory)
    ensures RestoreEntry(c, objects, locations, tree, e).Ok? ==>
      RestoreEntry(c, objects, locations, tree, e).value ==
        WithParents(tree, e.path)[e.path := Relinked(e.path, EntryNode(c, objects, locations, e).value)]
  {
    hide Ancestors, Wanted, EntryNode, Relinked, LeadsOutside, WithParents, AcceptableEntry;
    if '\0' !in e.path {
      NoLinkLeadsOutside(e, encrypted);
    }
    NotUnsupported(e, encrypted);
    forall f | f in front && Wanted(f.path, selected)
      ensures f.path in tree && (tree[f.path].DirectoryNode? <==> f.kind == Directory)
    {
      NodeKind(c, objects, locations, f);
    }
    assert Obstructed(tree, e.path) <==>
        exists f :: f in front && Wanted(f.path, selected) && f.path in Ancestors(e.path) && f.kind != Directory by {
      if Obstructed(tree, e.path) {
        var d :| d in Ancestors(e.path) && d in tree && !tree[d].DirectoryNode?;
        var f :| f in front && Wanted(f.path, selected) && f.path == d;
      }
      if f :| f in front && Wanted(f.path, selected) && f.path in Ancestors(e.path) && f.kind != Directory {
        assert f.path in tree;
      }
    }
    assert e.path in tree ==> tree[e.path] == DirectoryNode;
    assert e.path in tree <==> exists f :: f in front && Wanted(f.path, selected) && e.path in Ancestors(f.path);
    assert Occupied(tree, e) <==> e.path in tree && e.kind != Directory;
  }

  lemma NotUnsupported(e: Entry, encrypted: bool)
    requires AcceptableEntry(e, encrypted)
    ensures e.kind != Unsupported
  {
  }

  lemma HoldingMore(c: Primitives, objects: Objects, locations: map<ChunkId, Location>, front: seq<Entry>, e: Entry,
                    entries: seq<Entry>, selected: seq<string>, tree: Tree)
    requires Holding(c, objects, locations, front, selected, tree) && EntryNode(c, objects, locations, e).Ok?
    requires forall f :: f in entries <==> f in front || f == e
    requires Wanted(e.path, selected) && forall f :: f in front ==> f.path != e.path
    ensures Holding(c, objects, locations, entries, selected,
                    WithParents(tree, e.path)[e.path := Relinked(e.path, EntryNode(c, objects, locations, e).value)])
  {
    hide Ancestors, Wanted, EntryNode, Relinked;
    var after := WithParents(tree, e.path)[e.path := Relinked(e.path, EntryNode(c, objects, locations, e).value)];
    forall name
      ensures name in after <==>
        exists f :: f in entries && Wanted(f.path, selected) && (name == f.path || name in Ancestors(f.path))
    {
      if name in tree {
        var f :| f in front && Wanted(f.path, selected) && (name == f.path || name in Ancestors(f.path));
        assert f in entries;
      } else if name in after {
        assert e in entries;
      }
    }
  }

  /** What one more entry adds to the conditions. */
  lemma ClearMore(c: Primitives, objects: Objects, locations: map<ChunkId, Location>, front: seq<Entry>, e: Entry,
                  entries: seq<Entry>, selected: seq<string>)
    requires forall f :: f in entries <==> f in front || f == e
    ensures !Wanted(e.path, selected) ==>
      && (Clear(entries, selected) <==> Clear(front, selected))
      && (AllWrite(c, objects, locations, entries, selected) <==> AllWrite(c, objects, locations, front, selected))
    ensures Wanted(e.path, selected) ==>
      && (Clear(entries, selected) <==>
            && Clear(front, selected)
            && forall f :: f in front && Wanted(f.path, selected) ==>
              && (f.path in Ancestors(e.path) ==> f.kind == Directory)
              && (e.path in Ancestors(f.path) ==> e.kind == Directory))
      && (AllWrite(c, objects, locations, entries, selected) <==>
            AllWrite(c, objects, locations, front, selected) && Writes(c, objects, locations, e))
  {
    hide Ancestors, Wanted, Writes;
    NotAboveItself(e.path);
  }

  lemma HoldingSame(c: Primitives, objects: Objects, locations: map<ChunkId, Location>, front: seq<Entry>, e: Entry,
                    entries: seq<Entry>, selected: seq<string>, tree: Tree)
    requires Holding(c, objects, locations, front, selected, tree) && !Wanted(e.path, selected)
    requires forall f :: f in entries <==> f in front || f == e
    ensures Holding(c, objects, locations, entries, selected, tree)
  {
    hide Ancestors, Wanted, EntryNode, Relinked;
  }

  lemma HoldingNothing(c: Primitives, objects: Objects, locations: map<ChunkId, Location>, selected: seq<string>)
    ensures Holding(c, objects, locations, [], selected, map[])
    ensures AllWrite(c, objects, locations, [], selected) && Clear([], selected)
  {
  }

  lemma {:induction false} RestoresIfClear(c: Primitives, objects: Objects, locations: map<ChunkId, Location>,
                                           entries: seq<Entry>, selected: seq<string>, encrypted: bool)
    requires Accepted(entries, encrypted)
    ensures var r := RestoreEntries(c, objects, locations, entries, selected);
      && (r.Ok? <==> AllWrite(c, objects, locations, entries, selected) && Clear(entries, selected))
      && (r.Ok? ==> Holding(c, objects, locations, entries, selected, r.value))
  {
    hide Ancestors, Wanted, Writes, RestoreEntry, Accepted, EntryNode, AcceptableEntry, Relinked, WithParents, Holding,
      Clear, AllWrite;
    if entries == [] {
      HoldingNothing(c, objects, locations, selected);
    } else {
      var front, e := entries[..|entries| - 1], entries[|entries| - 1];
      InFront(entries, encrypted);
      RestoresIfClear(c, objects, locations, front, selected, encrypted);
      var before := RestoreEntries(c, objects, locations, front, selected);
      AcceptedLast(entries, encrypted);
      ClearMore(c, objects, locations, front, e, entries, selected);
      if before.Ok? && !Wanted(e.path, selected) {
        HoldingSame(c, objects, locations, front, e, entries, selected, before.value);
      } else if before.Ok? {
        NextRestoresIff(c, objects, locations, front, e, selected, encrypted, before.value);
        if RestoreEntry(c, objects, locations, before.value, e).Ok? {
          RestoredWrites(c, objects, locations, before.value, e);
          HoldingMore(c, objects, locations, front, e, entries, selected, before.value);
        }
      }
    }
  }

  lemma RestoredWrites(c: Primitives, objects: Objects, locations: map<ChunkId, Location>, tree: Tree, e: Entry)
    requires RestoreEntry(c, objects, locations, tree, e).Ok?
    ensures EntryNode(c, objects, locations, e).Ok?
  {
    hide EntryNode, Obstructed, Occupied, LeadsOutside;
  }

  lemma AcceptedLast(entries: seq<Entry>, encrypted: bool)
    requires entries != [] && Accepted(entries, encrypted)
    ensures AcceptableEntry(entries[|entries| - 1], encrypted)
  {
  }

  lemma NotAboveItself(p: string)
    ensures p !in Ancestors(p)
  {
  }

  // ------------------------------------------------------------ by elements and locations

  ghost function PlainTotal(locations: map<ChunkId, Location>, chunks: seq<ChunkId>): int
    requires forall id :: id in chunks ==> id in locations
  {
    if chunks == [] then 0
    else PlainTotal(locations, chunks[..|chunks| - 1]) + locations[chunks[|chunks| - 1]].plainSize
  }

  /** The location of every chunk of a file holds bytes of its digest, and the recorded sizes add up to the file's. */
  ghost predicate Legible(c: Primitives, objects: Objects, locations: map<ChunkId, Location>, e: Entry) {
    && (forall id :: id in e.chunks ==> id in locations && exists raw :: Holds(c, objects, locations[id], id, raw))
    && PlainTotal(locations, e.chunks) == e.size
  }

  lemma {:induction false} BytesReadIff(c: Primitives, objects: Objects, locations: map<ChunkId, Location>,
                                        chunks: seq<ChunkId>)
    ensures var r := FileBytes(c, objects, locations, chunks);
      && (r.Ok? <==> forall id :: id in chunks ==> ReadChunk(c, objects, locations, id).Ok?)
      && (r.Ok? ==> (forall id :: id in chunks ==> id in locations) && |r.value| == PlainTotal(locations, chunks))
  {
    hide ReadChunk, Holds;
    if chunks != [] {
      var front, last := chunks[..|chunks| - 1], chunks[|chunks| - 1];
      BytesReadIff(c, objects, locations, front);
      ReadsIffHeld(c, objects, locations, last);
      assert forall id :: id in chunks <==> id in front || id == last;
      if ReadChunk(c, objects, locations, last).Ok? {
        HeldSize(c, objects, locations[last], last, ReadChunk(c, objects, locations, last).value);
      }
    }
  }

  lemma HeldSize(c: Primitives, objects: Objects, l: Location, id: ChunkId, raw: Bytes)
    requires Holds(c, objects, l, id, raw)
    ensures |raw| == l.plainSize
  {
  }

  lemma EntryReadsIff(c: Primitives, objects: Objects, locations: map<ChunkId, Location>, e: Entry)
    requires e.kind != Unsupported
    ensures EntryNode(c, objects, locations, e).Ok? <==> (e.kind == File ==> Legible(c, objects, locations, e))
  {
    hide ReadChunk, FileBytes, Holds;
    BytesReadIff(c, objects, locations, e.chunks);
    forall id | id in e.chunks
      ensures ReadChunk(c, objects, locations, id).Ok? <==>
        id in locations && exists raw :: Holds(c, objects, locations[id], id, raw)
    {
      ReadsIffHeld(c, objects, locations, id);
    }
  }

  /** Every file asked for is legible, and nothing asked for has a NUL in its name or lies below such a file. */
  ghost predicate CanRestore(c: Primitives, objects: Objects, locations: map<ChunkId, Location>, entries: seq<Entry>,
                             selected: seq<string>)
  {
    forall e :: e in entries && Asked(e.path, selected) ==>
      && '\0' !in e.path
      && (e.kind == File ==>
            && Legible(c, objects, locations, e)
            && forall b :: b in entries && Asked(b.path, selected) ==> !(Split(e.path) < Split(b.path)))
  }

  /** A selection of a valid snapshot is restored exactly if it can be. */
  lemma RestoresIff(c: Primitives, objects: Objects, locations: map<ChunkId, Location>, s: Snapshot,
                    selected: seq<string>)
    requires ValidSnapshot(s)
    ensures RestoreEntries(c, objects, locations, s.entries, selected).Ok? <==>
      CanRestore(c, objects, locations, s.entries, selected)
  {
    hide ValidSnapshot, RestoreEntries, AcceptableEntry, Asked, Wanted, Ancestors, Split, Legible, EntryNode;
    SnapshotAcceptedIff(s);
    RestoresIfClear(c, objects, locations, s.entries, selected, s.encrypted);
    forall e | e in s.entries
      ensures Asked(e.path, selected) <==> Wanted(e.path, selected)
      ensures e.kind != Unsupported
      ensures EntryNode(c, objects, locations, e).Ok? <==> (e.kind == File ==> Legible(c, objects, locations, e))
    {
      NotUnsupported(e, s.encrypted);
      EntryReadsIff(c, objects, locations, e);
      AskedIff(e, s.encrypted, selected);
    }
    forall e, b | e in s.entries && b in s.entries
      ensures e.path in Ancestors(b.path) <==> Split(e.path) < Split(b.path)
    {
      AboveIff(e.path, b, s.encrypted);
    }
  }

  lemma AskedIff(e: Entry, encrypted: bool, selected: seq<string>)
    requires AcceptableEntry(e, encrypted)
    ensures Asked(e.path, selected) <==> Wanted(e.path, selected)
  {
    hide Split, AsksFor, Selected;
    SelectedElements(e.path, selected);
  }

  lemma AboveIff(path: string, e: Entry, encrypted: bool)
    requires AcceptableEntry(e, encrypted)
    ensures path in Ancestors(e.path) <==> Split(path) < Split(e.path)
  {
    hide Split;
    AncestorsByElements(e.path, path);
  }

  /** Every entry of a snapshot is exported, in order, exactly if every file is legible. */
  lemma {:induction false} ExportsIff(c: Primitives, objects: Objects, locations: map<ChunkId, Location>,
                                      entries: seq<Entry>)
    requires forall e :: e in entries ==> e.kind != Unsupported
    ensures var r := ExportEntries(c, objects, locations, entries);
      && (r.Ok? <==> forall e :: e in entries && e.kind == File ==> Legible(c, objects, locations, e))
      && (r.Ok? ==> |r.value| == |entries|)
      && (r.Ok? ==> forall i :: 0 <= i < |entries| ==>
            && EntryNode(c, objects, locations, entries[i]).Ok?
            && r.value[i] == Visit(entries[i].path, EntryNode(c, objects, locations, entries[i]).value))
  {
    hide EntryNode, Legible;
    if entries != [] {
      var front, e := entries[..|entries| - 1], entries[|entries| - 1];
      ExportsIff(c, objects, locations, front);
      EntryReadsIff(c, objects, locations, e);
      assert forall f :: f in entries <==> f in front || f == e;
    }
  }
}
