/** Scanning a source tree into a plan, and reading a snapshot back. */
module Restore {
  import opened ByteStrings
  import opened Codec
  import opened Links
  import opened Packs
  import opened Paths
  import opened Store
  import opened Calls
  import opened Upload
  import Chunker

  datatype Node = DirectoryNode | LinkNode(target: string) | FileNode(content: Bytes) | SpecialNode

  /** One visit of a directory walk, after the exclusion rules. */
  datatype Visit = Visit(path: string, node: Node)

  // ------------------------------------------------------------ scanning

  function ChunkIds(c: Primitives, parts: seq<Bytes>, k: Compression, e: bool): seq<ChunkId> {
    seq(|parts|, i requires 0 <= i < |parts| => IdOf(c, parts[i], k, e))
  }

  function EntryOf(c: Primitives, p: Chunker.Params, v: Visit, k: Compression, e: bool): Entry
    requires Chunker.ValidParams(p)
  {
    match v.node
    case DirectoryNode => Entry(v.path, Directory, 0, "", [])
    case LinkNode(target) => Entry(v.path, Symlink, 0, target, [])
    case FileNode(content) => Entry(v.path, File, |content|, "", ChunkIds(c, Chunker.Chunks(p, content), k, e))
    case SpecialNode => Entry(v.path, Unsupported, 0, "", [])
  }

  /** Sockets, devices and the like are skipped. */
  function Supported(visits: seq<Visit>): seq<Visit> {
    if visits == [] then []
    else
      var last := visits[|visits| - 1];
      Supported(visits[..|visits| - 1]) + if last.node.SpecialNode? then [] else [last]
  }

  /** The snapshot of a walk. */
  function EntriesOf(c: Primitives, p: Chunker.Params, visits: seq<Visit>, k: Compression, e: bool): seq<Entry>
    requires Chunker.ValidParams(p)
  {
    var kept := Supported(visits);
    seq(|kept|, i requires 0 <= i < |kept| => EntryOf(c, p, kept[i], k, e))
  }

  // ------------------------------------------------------------ reading back

  /** The bytes of a file entry, chunk by chunk. */
  function FileBytes(c: Primitives, objects: Objects, locations: map<ChunkId, Location>, chunks: seq<ChunkId>)
    : Result<Bytes, RepositoryError>
  {
    if chunks == [] then Ok([])
    else
      var front := FileBytes(c, objects, locations, chunks[..|chunks| - 1]);
      if front.Err? then front
      else
        var raw := ReadChunk(c, objects, locations, chunks[|chunks| - 1]);
        if raw.Err? then raw else Ok(front.value + raw.value)
  }

  predicate Wanted(path: string, selected: seq<string>) {
    selected == [] || Selected(path, selected)
  }

  /** What an entry holds, as stored. */
  function EntryNode(c: Primitives, objects: Objects, locations: map<ChunkId, Location>, e: Entry)
    : Result<Node, RepositoryError>
  {
    match e.kind
    case Directory => Ok(DirectoryNode)
    case Symlink => Ok(LinkNode(e.linkTarget))
    case File =>
      var content := FileBytes(c, objects, locations, e.chunks);
      if content.Err? then Err(content.error)
      else if |content.value| != e.size then Err(SizeMismatch(e.path))
      else Ok(FileNode(content.value))
    case Unsupported => Err(UnsupportedEntry(e.path))
  }

  /** What a restore has created so far, by archive name, in a target directory that was empty. */
  type Tree = map<string, Node>

  /** Something other than a directory is where a parent directory has to be. */
  predicate Obstructed(tree: Tree, path: string) {
    exists d :: d in Ancestors(path) && d in tree && !tree[d].DirectoryNode?
  }

  /** `MkdirAll` of the directories above a name. */
  function WithParents(tree: Tree, path: string): Tree {
    tree + map d | d in Ancestors(path) - tree.Keys :: DirectoryNode
  }

  /** What the name already holds cannot be replaced by this entry. */
  predicate Occupied(tree: Tree, e: Entry) {
    e.path in tree &&
    match e.kind
    case Directory => !tree[e.path].DirectoryNode?
    case Symlink => tree[e.path].DirectoryNode?
    case File => !tree[e.path].FileNode?
    case Unsupported => false
  }

  predicate LeadsOutside(e: Entry) {
    e.kind == Symlink && (Escapes(Resolve(e.path, e.linkTarget)) || !Free('\0', Resolve(e.path, e.linkTarget)))
  }

  /** Links are created with their normalized target, everything else as it was. */
  function Relinked(path: string, node: Node): Node {
    if node.LinkNode? then LinkNode(Normalized(path, node.target)) else node
  }

  /** One entry of a restore. */
  function RestoreEntry(c: Primitives, objects: Objects, locations: map<ChunkId, Location>, tree: Tree, e: Entry)
    : Result<Tree, RepositoryError>
  {
    if '\0' in e.path then Err(UnsafePath(e.path))
    else if Obstructed(tree, e.path) then Err(PathBlocked(e.path))
    else if LeadsOutside(e) then Err(UnsafeLink(e.path))
    else if Occupied(tree, e) then Err(PathBlocked(e.path))
    else
      var node := EntryNode(c, objects, locations, e);
      if node.Err? then Err(node.error)
      else Ok(WithParents(tree, e.path)[e.path := Relinked(e.path, node.value)])
  }

  /** The tree a restore creates. */
  function RestoreEntries(c: Primitives, objects: Objects, locations: map<ChunkId, Location>,
                          entries: seq<Entry>, selected: seq<string>)
    : Result<Tree, RepositoryError>
  {
    if entries == [] then Ok(map[])
    else
      var front := RestoreEntries(c, objects, locations, entries[..|entries| - 1], selected);
      var e := entries[|entries| - 1];
      if front.Err? || !Wanted(e.path, selected) then front
      else RestoreEntry(c, objects, locations, front.value, e)
  }

  /** The members of an exported tar; its writer refuses a body that differs from the announced size. */
  function ExportEntries(c: Primitives, objects: Objects, locations: map<ChunkId, Location>, entries: seq<Entry>)
    : Result<seq<Visit>, RepositoryError>
  {
    if entries == [] then Ok([])
    else
      var front := ExportEntries(c, objects, locations, entries[..|entries| - 1]);
      var e := entries[|entries| - 1];
      if front.Err? then front
      else
        var node := EntryNode(c, objects, locations, e);
        if node.Err? then Err(node.error) else Ok(front.value + [Visit(e.path, node.value)])
  }

  // ------------------------------------------------------------ what a selection brings back

  /** The selection asks for the name by its elements; without one everything is asked for. */
  ghost predicate Asked(path: string, selected: seq<string>) {
    selected == [] || exists i :: 0 <= i < |selected| && AsksFor(selected[i], Split(path))
  }

  /** A name that is asked for is this one or lies below it. */
  ghost predicate AskedFor(path: string, selected: seq<string>, name: string) {
    Asked(path, selected) && Split(name) <= Split(path)
  }

  lemma AskedForIff(path: string, selected: seq<string>, name: string)
    requires AllPlain(Split(path))
    ensures AskedFor(path, selected, name) <==> Wanted(path, selected) && (name == path || name in Ancestors(path))
  {
    hide Split, AsksFor, Selected, Ancestors, AllPlain, Joined;
    SelectedElements(path, selected);
    AncestorsByElements(path, name);
    JoinedSplit(path);
    JoinedSplit(name);
    assert Split(name) <= Split(path) <==> Split(name) == Split(path) || Split(name) < Split(path);
    assert Split(name) == Split(path) <==> name == path;
  }

  /** Whatever the store holds, a restore that succeeds creates just the names that were asked for. */
  lemma {:induction false} RestoredNames(c: Primitives, objects: Objects, locations: map<ChunkId, Location>,
                                         entries: seq<Entry>, selected: seq<string>)
    requires forall i :: 0 <= i < |entries| ==> AllPlain(Split(entries[i].path))
    requires RestoreEntries(c, objects, locations, entries, selected).Ok?
    ensures forall name :: name in RestoreEntries(c, objects, locations, entries, selected).value <==>
      exists i :: 0 <= i < |entries| && AskedFor(entries[i].path, selected, name)
  {
    hide Split, AskedFor, Wanted, AllPlain, EntryNode, Ancestors, Occupied, Obstructed, LeadsOutside, Relinked;
    if entries != [] {
      var front, e := entries[..|entries| - 1], entries[|entries| - 1];
      RestoredNames(c, objects, locations, front, selected);
      var before := RestoreEntries(c, objects, locations, front, selected).value;
      var after := RestoreEntries(c, objects, locations, entries, selected).value;
      forall name
        ensures name in after <==> exists i :: 0 <= i < |entries| && AskedFor(entries[i].path, selected, name)
      {
        AskedForIff(e.path, selected, name);
        assert name in after <==> name in before || AskedFor(e.path, selected, name);
        assert entries[|front|] == e && forall i :: 0 <= i < |front| ==> entries[i] == front[i];
      }
    }
  }

  // ------------------------------------------------------------ round trip

  /**
   What a directory walk guarantees: the directories a name is in are visited before it,
   and file names hold no NUL.
   */
  ghost predicate Walked(visits: seq<Visit>) {
    && (forall i :: 0 <= i < |visits| ==> '\0' !in visits[i].path)
    && (forall i, d :: 0 <= i < |visits| && d in Ancestors(visits[i].path) ==> Visit(d, DirectoryNode) in visits[..i])
  }

  /** A restored selection has the wanted names and the directories above them. */
  predicate Brings(v: Visit, selected: seq<string>, name: string) {
    !v.node.SpecialNode? && Wanted(v.path, selected) && (name == v.path || name in Ancestors(v.path))
  }

  /**
   The tree is the walked one, cut down to the wanted names and the directories above
   them, with links spelled anew.
   */
  ghost predicate RestoredFrom(visits: seq<Visit>, selected: seq<string>, tree: Tree) {
    && (forall name :: name in tree <==> exists v :: v in visits && Brings(v, selected, name))
    && (forall name :: name in tree ==> exists v :: v in visits && !v.node.SpecialNode? && v.path == name)
    && (forall v :: v in visits && !v.node.SpecialNode? && v.path in tree ==> tree[v.path] == Relinked(v.path, v.node))
  }

  /** The same file, the same directory, or a link that leads to the same name. */
  predicate SameNode(path: string, restored: Node, node: Node) {
    if node.LinkNode?
    then restored.LinkNode? && Resolve(path, restored.target) == Resolve(path, node.target)
    else restored == node
  }

  /** A file's chunks read back as the file, wherever each of them was stored. */
  lemma {:induction false} FileReadsBack(c: Primitives, universe: iset<EncodedChunk>, packSize: int, objects: Objects,
                                         locations: map<ChunkId, Location>, parts: seq<Bytes>, k: Compression, e: bool)
    requires Lawful(c) && Sound(c, universe, packSize, objects) && IsIndexOf(objects, locations)
    requires forall i :: 0 <= i < |parts| ==> Indexed(objects, IdOf(c, parts[i], k, e))
    ensures FileBytes(c, objects, locations, ChunkIds(c, parts, k, e)) == Ok(Join(parts))
  {
    hide ReadChunk, Sound, IsIndexOf;
    if parts != [] {
      var front, last := parts[..|parts| - 1], parts[|parts| - 1];
      FileReadsBack(c, universe, packSize, objects, locations, front, k, e);
      assert ChunkIds(c, parts, k, e)[..|parts| - 1] == ChunkIds(c, front, k, e);
      IndexedChunksReadBack(c, universe, packSize, objects, locations, last, k, e);
      assert parts == front + [last];
      JoinSnoc(front, last);
    }
  }

  /** In any store, a file's chunks read as the file or one of them is found damaged. */
  lemma {:induction false} FileReadsGenuinely(c: Primitives, objects: Objects, locations: map<ChunkId, Location>,
                                              parts: seq<Bytes>, k: Compression, e: bool)
    requires CollisionFree(c)
    ensures var r := FileBytes(c, objects, locations, ChunkIds(c, parts, k, e)); r.Ok? ==> r.value == Join(parts)
  {
    hide ReadChunk, CollisionFree;
    if parts != [] {
      var front, last := parts[..|parts| - 1], parts[|parts| - 1];
      FileReadsGenuinely(c, objects, locations, front, k, e);
      assert ChunkIds(c, parts, k, e)[..|parts| - 1] == ChunkIds(c, front, k, e);
      ReadsAreGenuine(c, objects, locations, last, k, e);
      assert parts == front + [last];
      JoinSnoc(front, last);
    }
  }

  lemma EntryReadsGenuinely(c: Primitives, p: Chunker.Params, objects: Objects, locations: map<ChunkId, Location>,
                            v: Visit, k: Compression, e: bool)
    requires CollisionFree(c) && Chunker.ValidParams(p)
    ensures var r := EntryNode(c, objects, locations, EntryOf(c, p, v, k, e)); r.Ok? ==> r.value == v.node
  {
    hide Chunker.Chunks, Chunker.Cut, FileBytes, Join, CollisionFree;
    if v.node.FileNode? {
      FileReadsGenuinely(c, objects, locations, Chunker.Chunks(p, v.node.content), k, e);
      Chunker.ChunksPartition(p, v.node.content);
    }
  }

  ghost predicate AllIndexed(objects: Objects, entries: seq<Entry>) {
    forall i, j :: 0 <= i < |entries| && 0 <= j < |entries[i].chunks| ==> Indexed(objects, entries[i].chunks[j])
  }

  lemma EntryReadsBack(c: Primitives, p: Chunker.Params, universe: iset<EncodedChunk>, packSize: int, objects: Objects,
                       locations: map<ChunkId, Location>, v: Visit, k: Compression, e: bool)
    requires Lawful(c) && Sound(c, universe, packSize, objects) && IsIndexOf(objects, locations)
    requires Chunker.ValidParams(p) && !v.node.SpecialNode?
    requires forall j :: 0 <= j < |EntryOf(c, p, v, k, e).chunks| ==> Indexed(objects, EntryOf(c, p, v, k, e).chunks[j])
    ensures EntryNode(c, objects, locations, EntryOf(c, p, v, k, e)) == Ok(v.node)
    ensures v.node.FileNode? ==> FileBytes(c, objects, locations, EntryOf(c, p, v, k, e).chunks) == Ok(v.node.content)
  {
    hide Chunker.Chunks, Chunker.Cut, FileBytes, Join, Sound, IsIndexOf;
    if v.node.FileNode? {
      var parts := Chunker.Chunks(p, v.node.content);
      assert forall j :: 0 <= j < |parts| ==> EntryOf(c, p, v, k, e).chunks[j] == IdOf(c, parts[j], k, e);
      FileReadsBack(c, universe, packSize, objects, locations, parts, k, e);
      Chunker.ChunksPartition(p, v.node.content);
    }
  }

  lemma EntriesSnoc(c: Primitives, p: Chunker.Params, visits: seq<Visit>, k: Compression, e: bool)
    requires Chunker.ValidParams(p) && visits != []
    ensures var front, v := visits[..|visits| - 1], visits[|visits| - 1];
      EntriesOf(c, p, visits, k, e) ==
        EntriesOf(c, p, front, k, e) + if v.node.SpecialNode? then [] else [EntryOf(c, p, v, k, e)]
  {
  }

  // ------------------------------------------------------------ the walked tree

  ghost predicate DistinctNames(visits: seq<Visit>) {
    forall i, j :: 0 <= i < j < |visits| && !visits[i].node.SpecialNode? && !visits[j].node.SpecialNode? ==>
      visits[i].path != visits[j].path
  }

  lemma EntryFacts(c: Primitives, p: Chunker.Params, v: Visit, k: Compression, e: bool)
    requires Chunker.ValidParams(p)
    ensures EntryOf(c, p, v, k, e).path == v.path
  {
  }

  lemma {:induction false} VisitHasEntry(c: Primitives, p: Chunker.Params, visits: seq<Visit>, k: Compression, e: bool,
                                         n: nat)
    requires Chunker.ValidParams(p) && n < |visits| && !visits[n].node.SpecialNode?
    ensures EntryOf(c, p, visits[n], k, e) in EntriesOf(c, p, visits, k, e)
  {
    hide EntryOf;
    EntriesSnoc(c, p, visits, k, e);
    if n < |visits| - 1 {
      VisitHasEntry(c, p, visits[..|visits| - 1], k, e, n);
    }
  }

  lemma {:induction false} ValidWalkIsDistinct(c: Primitives, p: Chunker.Params, visits: seq<Visit>, k: Compression,
                                               e: bool)
    requires Chunker.ValidParams(p)
    requires var entries := EntriesOf(c, p, visits, k, e);
      forall i, j :: 0 <= i < j < |entries| ==> entries[i].path != entries[j].path
    ensures DistinctNames(visits)
  {
    hide EntriesOf;
    if visits != [] {
      var front, v := visits[..|visits| - 1], visits[|visits| - 1];
      EntriesSnoc(c, p, visits, k, e);
      assert forall i :: 0 <= i < |EntriesOf(c, p, front, k, e)| ==>
        EntriesOf(c, p, visits, k, e)[i] == EntriesOf(c, p, front, k, e)[i];
      ValidWalkIsDistinct(c, p, front, k, e);
      forall i | 0 <= i < |front| && !visits[i].node.SpecialNode? && !v.node.SpecialNode?
        ensures visits[i].path != v.path
      {
        var before := EntriesOf(c, p, front, k, e);
        VisitHasEntry(c, p, front, k, e, i);
        var m :| 0 <= m < |before| && before[m] == EntryOf(c, p, front[i], k, e);
        assert EntriesOf(c, p, visits, k, e)[m].path != EntriesOf(c, p, visits, k, e)[|before|].path;
        EntryFacts(c, p, front[i], k, e);
        EntryFacts(c, p, v, k, e);
      }
    }
  }

  lemma ResolveFree(ch: char, path: string, target: string)
    requires ch !in path && ch !in target && ch != '/'
    ensures Free(ch, Resolve(path, target))
  {
    hide Clean, Split;
    SplitFree(ch, path);
    SplitFree(ch, Slashed(target));
    CleanFree(ch, Directories(path) + Split(Slashed(target)));
  }

  /** The next visited name is still free, and nothing is in the way of its parents. */
  lemma NextIsFree(visits: seq<Visit>, selected: seq<string>, tree: Tree)
    requires visits != [] && Walked(visits) && DistinctNames(visits)
    requires !visits[|visits| - 1].node.SpecialNode?
    requires RestoredFrom(visits[..|visits| - 1], selected, tree)
    ensures var v := visits[|visits| - 1]; v.path !in tree && !Obstructed(tree, v.path)
  {
    hide Ancestors, Wanted, Relinked;
    var front, v := visits[..|visits| - 1], visits[|visits| - 1];
    assert front + [v] == visits;
    VisitsSnoc(front, v);
    forall d | d in Ancestors(v.path) && d in tree ensures tree[d].DirectoryNode? {
      assert Visit(d, DirectoryNode) in front;
      RelinkedDirectory(d);
    }
  }

  lemma RelinkedDirectory(path: string)
    ensures Relinked(path, DirectoryNode) == DirectoryNode
  {
  }

  lemma VisitsSnoc(visits: seq<Visit>, v: Visit)
    requires Walked(visits + [v]) && DistinctNames(visits + [v])
    ensures Walked(visits) && DistinctNames(visits)
    ensures forall d :: d in Ancestors(v.path) ==> Visit(d, DirectoryNode) in visits
    ensures forall w :: w in visits && !w.node.SpecialNode? && !v.node.SpecialNode? ==> w.path != v.path
  {
    hide Ancestors;
    var all := visits + [v];
    assert all[..|visits|] == visits && all[|visits|] == v;
    forall i, d | 0 <= i < |visits| && d in Ancestors(visits[i].path) ensures Visit(d, DirectoryNode) in visits[..i] {
      assert all[i] == visits[i] && all[..i] == visits[..i];
    }
    assert forall i :: 0 <= i < |visits| ==> all[i] == visits[i];
  }

  /** Writing a wanted entry extends the restored tree by it and the directories above it. */
  lemma PlacedIsRestored(visits: seq<Visit>, v: Visit, selected: seq<string>, tree: Tree)
    requires Walked(visits + [v]) && DistinctNames(visits + [v])
    requires RestoredFrom(visits, selected, tree) && v.path !in tree
    requires !v.node.SpecialNode? && Wanted(v.path, selected)
    ensures RestoredFrom(visits + [v], selected, WithParents(tree, v.path)[v.path := Relinked(v.path, v.node)])
  {
    hide Ancestors, Wanted, Relinked, Walked, DistinctNames;
    var after := WithParents(tree, v.path)[v.path := Relinked(v.path, v.node)];
    var all := visits + [v];
    VisitsSnoc(visits, v);
    assert v in all && forall w :: w in visits ==> w in all;
    forall name ensures name in after <==> exists w :: w in all && Brings(w, selected, name) {
      if name in tree {
        var w :| w in visits && Brings(w, selected, name);
        assert w in all;
      } else if name in after {
        assert Brings(v, selected, name);
      }
    }
    forall name | name in after ensures exists w :: w in all && !w.node.SpecialNode? && w.path == name {
      if name in tree {
        var w :| w in visits && !w.node.SpecialNode? && w.path == name;
        assert w in all;
      } else if name != v.path {
        assert Visit(name, DirectoryNode) in all;
      }
    }
    forall w | w in all && !w.node.SpecialNode? && w.path in after ensures after[w.path] == Relinked(w.path, w.node) {
      if w != v {
        assert w in visits && w.path != v.path;
        if w.path !in tree {
          ParentIsDirectory(visits, v, w);
          RelinkedDirectory(w.path);
        }
      }
    }
  }

  /** The only visit of a name above another is the one of the directory. */
  lemma ParentIsDirectory(visits: seq<Visit>, v: Visit, w: Visit)
    requires Walked(visits + [v]) && DistinctNames(visits + [v])
    requires w in visits && !w.node.SpecialNode?
    ensures w.path in Ancestors(v.path) ==> w.node == DirectoryNode
  {
    hide Ancestors;
    VisitsSnoc(visits, v);
    if w.path in Ancestors(v.path) {
      var d := Visit(w.path, DirectoryNode);
      assert d in visits;
      var i, j :| 0 <= i < |visits| && 0 <= j < |visits| && visits[i] == d && visits[j] == w;
      assert i == j;
    }
  }

  /** A visit that is not wanted leaves the description of the tree as it is. */
  lemma SkippedIsRestored(visits: seq<Visit>, v: Visit, selected: seq<string>, tree: Tree)
    requires RestoredFrom(visits, selected, tree)
    requires v.node.SpecialNode? || (!Wanted(v.path, selected) && v.path !in tree)
    ensures RestoredFrom(visits + [v], selected, tree)
  {
    hide Ancestors, Wanted, Relinked;
    var all := visits + [v];
    assert v in all && forall w :: w in visits ==> w in all;
    forall name ensures name in tree <==> exists w :: w in all && Brings(w, selected, name) {
      if name in tree {
        var w :| w in visits && Brings(w, selected, name);
        assert w in all;
      }
    }
    forall name | name in tree ensures exists w :: w in all && !w.node.SpecialNode? && w.path == name {
      var w :| w in visits && !w.node.SpecialNode? && w.path == name;
      assert w in all;
    }
  }

  // ------------------------------------------------------------ entries read back

  ghost predicate ValidEntries(entries: seq<Entry>, encrypted: bool) {
    forall i :: 0 <= i < |entries| ==> ValidEntry(entries[i], encrypted)
  }

  lemma SafeEntryRestores(c: Primitives, objects: Objects, locations: map<ChunkId, Location>, tree: Tree, e: Entry,
                          encrypted: bool)
    requires ValidEntry(e, encrypted) && '\0' !in e.path
    requires !Obstructed(tree, e.path) && e.path !in tree
    requires EntryNode(c, objects, locations, e).Ok?
    ensures RestoreEntry(c, objects, locations, tree, e) ==
      Ok(WithParents(tree, e.path)[e.path := Relinked(e.path, EntryNode(c, objects, locations, e).value)])
  {
    hide Resolve, EntryNode, Obstructed, WithParents, Relinked;
    if e.kind == Symlink {
      ResolveFree('\0', e.path, e.linkTarget);
    }
  }

  /** Every entry of the walk can be read. */
  ghost predicate AllReadable(c: Primitives, p: Chunker.Params, objects: Objects, locations: map<ChunkId, Location>,
                              visits: seq<Visit>, k: Compression, e: bool)
    requires Chunker.ValidParams(p)
  {
    forall i :: 0 <= i < |visits| && !visits[i].node.SpecialNode? ==>
      EntryNode(c, objects, locations, EntryOf(c, p, visits[i], k, e)).Ok?
  }

  /**
   Whatever has become of the store, a restore of a walk's entries that succeeds gives the
   walked tree; and it succeeds if they can all be read.
   */
  lemma {:induction false} RestoreIsGenuine(c: Primitives, p: Chunker.Params, objects: Objects,
                                            locations: map<ChunkId, Location>, visits: seq<Visit>, k: Compression,
                                            e: bool, selected: seq<string>)
    requires CollisionFree(c) && Chunker.ValidParams(p)
    requires Walked(visits) && DistinctNames(visits) && ValidEntries(EntriesOf(c, p, visits, k, e), e)
    ensures var r := RestoreEntries(c, objects, locations, EntriesOf(c, p, visits, k, e), selected);
      && (r.Ok? ==> RestoredFrom(visits, selected, r.value))
      && (AllReadable(c, p, objects, locations, visits, k, e) ==> r.Ok?)
  {
    hide RestoredFrom, Walked, DistinctNames, Wanted, RestoreEntry, EntryNode, EntryOf, EntriesOf, ValidEntry,
      CollisionFree, Chunker.ValidParams;
    var entries := EntriesOf(c, p, visits, k, e);
    if visits == [] {
      NoEntries(c, p, k, e);
      NothingRestored(selected);
    } else {
      var front, v := visits[..|visits| - 1], visits[|visits| - 1];
      var before := EntriesOf(c, p, front, k, e);
      assert front + [v] == visits;
      EntriesSnoc(c, p, visits, k, e);
      VisitsSnoc(front, v);
      assert ValidEntries(before, e) by {
        assert forall i :: 0 <= i < |before| ==> before[i] == entries[i];
      }
      RestoreIsGenuine(c, p, objects, locations, front, k, e, selected);
      var restored := RestoreEntries(c, objects, locations, before, selected);
      if v.node.SpecialNode? {
        assert entries == before;
        if restored.Ok? {
          SkippedIsRestored(front, v, selected, restored.value);
        }
      } else {
        var entry := EntryOf(c, p, v, k, e);
        assert entries[|before|] == entry && entries[..|before|] == before;
        EntryFacts(c, p, v, k, e);
        assert ValidEntry(entry, e);
        if restored.Ok? {
          NextIsRestored(c, p, objects, locations, visits, k, e, selected, restored.value);
        }
      }
    }
  }

  /** The same of an export. */
  lemma {:induction false} ExportIsGenuine(c: Primitives, p: Chunker.Params, objects: Objects,
                                           locations: map<ChunkId, Location>, visits: seq<Visit>, k: Compression,
                                           e: bool)
    requires CollisionFree(c) && Chunker.ValidParams(p)
    ensures var r := ExportEntries(c, objects, locations, EntriesOf(c, p, visits, k, e));
      && (r.Ok? ==> r.value == Supported(visits))
      && (AllReadable(c, p, objects, locations, visits, k, e) ==> r.Ok?)
  {
    hide EntryNode, EntryOf, EntriesOf, CollisionFree, Chunker.ValidParams;
    var entries := EntriesOf(c, p, visits, k, e);
    if visits == [] {
      NoEntries(c, p, k, e);
    } else {
      var front, v := visits[..|visits| - 1], visits[|visits| - 1];
      EntriesSnoc(c, p, visits, k, e);
      ExportIsGenuine(c, p, objects, locations, front, k, e);
      if !v.node.SpecialNode? {
        assert entries[..|entries| - 1] == EntriesOf(c, p, front, k, e);
        EntryFacts(c, p, v, k, e);
        EntryReadsGenuinely(c, p, objects, locations, v, k, e);
      } else {
        assert entries == EntriesOf(c, p, front, k, e);
      }
    }
  }

  /** The restore step of the last entry fails where the entry cannot be read, and else gives the walked tree. */
  lemma NextIsRestored(c: Primitives, p: Chunker.Params, objects: Objects, locations: map<ChunkId, Location>,
                       visits: seq<Visit>, k: Compression, e: bool, selected: seq<string>, tree: Tree)
    requires CollisionFree(c) && Chunker.ValidParams(p) && Walked(visits) && DistinctNames(visits) && visits != []
    requires var v := visits[|visits| - 1]; !v.node.SpecialNode? && ValidEntry(EntryOf(c, p, v, k, e), e)
    requires RestoredFrom(visits[..|visits| - 1], selected, tree)
    ensures var v := visits[|visits| - 1];
      var entry := EntryOf(c, p, v, k, e);
      if !Wanted(v.path, selected) then RestoredFrom(visits, selected, tree)
      else
        var r := RestoreEntry(c, objects, locations, tree, entry);
        && (EntryNode(c, objects, locations, entry).Ok? <==> r.Ok?)
        && (r.Ok? ==> RestoredFrom(visits, selected, r.value))
  {
    hide RestoredFrom, Walked, DistinctNames, Wanted, RestoreEntry, EntryNode, EntryOf, ValidEntry, CollisionFree,
      Chunker.ValidParams;
    var front, v := visits[..|visits| - 1], visits[|visits| - 1];
    var entry := EntryOf(c, p, v, k, e);
    assert front + [v] == visits;
    EntryFacts(c, p, v, k, e);
    EntryReadsGenuinely(c, p, objects, locations, v, k, e);
    NextIsFree(visits, selected, tree);
    WalkedName(visits, |front|);
    if !Wanted(v.path, selected) {
      SkippedIsRestored(front, v, selected, tree);
    } else if EntryNode(c, objects, locations, entry).Ok? {
      SafeEntryRestores(c, objects, locations, tree, entry, e);
      PlacedIsRestored(front, v, selected, tree);
    } else {
      UnreadableFails(c, objects, locations, tree, entry);
    }
  }

  lemma UnreadableFails(c: Primitives, objects: Objects, locations: map<ChunkId, Location>, tree: Tree, e: Entry)
    requires EntryNode(c, objects, locations, e).Err?
    ensures RestoreEntry(c, objects, locations, tree, e).Err?
  {
    hide EntryNode, Obstructed, Occupied, LeadsOutside;
  }

  /** In a sound repository, restoring the entries of a walk gives the walked tree, and exporting them its files. */
  lemma EntriesReadBack(c: Primitives, p: Chunker.Params, universe: iset<EncodedChunk>, packSize: int,
                        objects: Objects, locations: map<ChunkId, Location>, visits: seq<Visit>, k: Compression,
                        e: bool, selected: seq<string>)
    requires Lawful(c) && Sound(c, universe, packSize, objects) && IsIndexOf(objects, locations)
    requires Chunker.ValidParams(p) && AllIndexed(objects, EntriesOf(c, p, visits, k, e))
    requires Walked(visits) && DistinctNames(visits) && ValidEntries(EntriesOf(c, p, visits, k, e), e)
    ensures var r := RestoreEntries(c, objects, locations, EntriesOf(c, p, visits, k, e), selected);
      r.Ok? && RestoredFrom(visits, selected, r.value)
    ensures ExportEntries(c, objects, locations, EntriesOf(c, p, visits, k, e)) == Ok(Supported(visits))
  {
    hide RestoredFrom, Walked, DistinctNames, EntryNode, EntryOf, EntriesOf, ValidEntry, Sound, IsIndexOf, Indexed,
      RestoreEntries, ExportEntries, CollisionFree;
    forall i | 0 <= i < |visits| && !visits[i].node.SpecialNode?
      ensures EntryNode(c, objects, locations, EntryOf(c, p, visits[i], k, e)).Ok?
    {
      VisitHasEntry(c, p, visits, k, e, i);
      EntryReadsBack(c, p, universe, packSize, objects, locations, visits[i], k, e);
    }
    RestoreIsGenuine(c, p, objects, locations, visits, k, e, selected);
    ExportIsGenuine(c, p, objects, locations, visits, k, e);
  }

  lemma WalkedName(visits: seq<Visit>, i: nat)
    requires Walked(visits) && i < |visits|
    ensures '\0' !in visits[i].path
  {
  }

  lemma NoEntries(c: Primitives, p: Chunker.Params, k: Compression, e: bool)
    requires Chunker.ValidParams(p)
    ensures EntriesOf(c, p, [], k, e) == []
  {
  }

  lemma NothingRestored(selected: seq<string>)
    ensures RestoredFrom([], selected, map[])
  {
  }

  /** Restored entries mean what the walk found. */
  lemma RestoredIsSame(c: Primitives, p: Chunker.Params, visits: seq<Visit>, k: Compression, e: bool,
                       selected: seq<string>, tree: Tree)
    requires Chunker.ValidParams(p) && Walked(visits) && ValidEntries(EntriesOf(c, p, visits, k, e), e)
    requires RestoredFrom(visits, selected, tree)
    ensures forall v :: v in visits && !v.node.SpecialNode? && v.path in tree ==> SameNode(v.path, tree[v.path], v.node)
  {
    hide EntriesOf, Resolve, Normalized, SafeLink, Walked;
    forall v | v in visits && !v.node.SpecialNode? && v.path in tree ensures SameNode(v.path, tree[v.path], v.node) {
      var n :| 0 <= n < |visits| && visits[n] == v;
      VisitHasEntry(c, p, visits, k, e, n);
      WalkedName(visits, n);
      if v.node.LinkNode? {
        NormalizedKeepsTarget(v.path, v.node.target);
      }
    }
  }

  /** What comes back of a walk is what was asked for, with the directories above it. */
  lemma RestoredByElements(c: Primitives, p: Chunker.Params, visits: seq<Visit>, k: Compression, e: bool,
                           selected: seq<string>, tree: Tree)
    requires Chunker.ValidParams(p) && ValidEntries(EntriesOf(c, p, visits, k, e), e)
    requires RestoredFrom(visits, selected, tree)
    ensures forall name :: name in tree <==>
      exists v :: v in visits && !v.node.SpecialNode? && AskedFor(v.path, selected, name)
  {
    hide EntriesOf, AskedFor, Wanted, Ancestors, Split, AllPlain;
    forall v, name | v in visits && !v.node.SpecialNode?
      ensures AskedFor(v.path, selected, name) <==> Brings(v, selected, name)
    {
      var n :| 0 <= n < |visits| && visits[n] == v;
      VisitHasEntry(c, p, visits, k, e, n);
      EntryFacts(c, p, v, k, e);
      AskedForIff(v.path, selected, name);
    }
  }

  /** Without a selection everything the walk found comes back. */
  lemma EverythingRestored(visits: seq<Visit>, tree: Tree)
    requires RestoredFrom(visits, [], tree)
    ensures forall name :: name in tree <==> exists v :: v in visits && !v.node.SpecialNode? && v.path == name
  {
    forall v | v in visits && !v.node.SpecialNode? ensures v.path in tree {
      assert Brings(v, [], v.path);
    }
  }
}
