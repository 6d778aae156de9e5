/**
 * Differential file backups: what an archive holds relative to a base manifest, what
 * restoring archives does to a directory tree, and when base plus difference is the
 * current tree again.
 */
module DifferentialBackup {
  import opened ArchiveNames
  import opened ByteStrings
  import opened Links
  import opened Paths

  /** An archived entry; directories have a size and a time of their own too. */
  datatype Node = File(content: Bytes, mtime: int) | Dir(dirSize: nat, mtime: int) {
    function Size(): nat {
      match this case File(content, _) => |content| case Dir(size, _) => size
    }
  }

  datatype Item = Item(path: string, node: Node)

  type Entries = map<string, Node>

  /** What a manifest remembers of an entry. */
  datatype Fingerprint = Fingerprint(size: nat, mtime: int, isDir: bool)

  type Base = map<string, Fingerprint>

  /** A node of the tree a restore writes to. */
  datatype Fs = FileAt(content: Bytes) | DirAt

  type Tree = map<string, Fs>

  function FingerprintOf(node: Node): Fingerprint {
    Fingerprint(node.Size(), node.mtime, node.Dir?)
  }

  function Laid1(node: Node): Fs {
    match node case File(content, _) => FileAt(content) case Dir(_, _) => DirAt
  }

  predicate DistinctPaths(items: seq<Item>) {
    forall i, j :: 0 <= i < j < |items| ==> items[i].path != items[j].path
  }

  /** The entries of a list, a later one replacing an earlier one of the same name. */
  function Index(items: seq<Item>): Entries {
    if items == [] then map[]
    else Index(items[..|items| - 1])[items[|items| - 1].path := items[|items| - 1].node]
  }

  lemma IndexSnoc(items: seq<Item>, last: Item)
    ensures Index(items + [last]) == Index(items)[last.path := last.node]
  {
    assert (items + [last])[..|items|] == items;
  }

  // ------------------------------------------------------------ differences

  predicate ChangedSince(base: Base, path: string, node: Node) {
    || path !in base
    || (!node.Dir? && (base[path].size != node.Size() || base[path].mtime != node.mtime))
  }

  function Manifest(e: Entries): Base {
    map p | p in e :: FingerprintOf(e[p])
  }

  /** What a differential archive holds. */
  function Difference(base: Base, e: Entries): Entries {
    map p | p in e && ChangedSince(base, p, e[p]) :: e[p]
  }

  // ------------------------------------------------------------ restoring

  /** Creates these directories unless a file is in the way. */
  function MkdirAll(t: Tree, dirs: set<string>): Result<Tree, string> {
    if exists d :: d in dirs && d in t && t[d].FileAt? then Err("not a directory")
    else Ok(map p | p in t.Keys + dirs :: if p in t then t[p] else DirAt)
  }

  /** Creates one entry under just this name. */
  function Lay(t: Tree, item: Item): Result<Tree, string> {
    match item.node
    case Dir(_, _) => MkdirAll(t, Ancestors(item.path) + {item.path})
    case File(content, _) =>
      match MkdirAll(t, Ancestors(item.path))
      case Err(e) => Err(e)
      case Ok(u) =>
        if item.path in u && u[item.path] == DirAt then Err("is a directory")
        else Ok(u[item.path := FileAt(content)])
  }

  /** Extracts one entry where its name leads; a name that comes to nothing is skipped. */
  function Put(t: Tree, item: Item): Result<Tree, string> {
    match PlaceOf(item.path)
    case Skipped => Ok(t)
    case Outside => Err("entry escapes restore path")
    case Top => if item.node.Dir? then Ok(t) else Err("is a directory")
    case At(name) => Lay(t, Item(name, item.node))
  }

  function Extract(t: Tree, items: seq<Item>): Result<Tree, string> {
    if items == [] then Ok(t)
    else
      match Extract(t, items[..|items| - 1])
      case Err(e) => Err(e)
      case Ok(u) => Put(u, items[|items| - 1])
  }

  /** Removes a path and what is below it; a path that does not exist is already removed. */
  function Remove(t: Tree, x: string): Result<Tree, string> {
    if exists d :: d in Ancestors(x) && d in t && t[d].FileAt? then Err("not a directory")
    else Ok(map p | p in t && p != x && !Below(p, x) :: t[p])
  }

  /** Removes what a deletion leads to, which may be everything. */
  function RemoveAll(t: Tree, raw: string): Result<Tree, string> {
    match PlaceOf(raw)
    case Skipped => Ok(t)
    case Outside => Err("deletion escapes restore path")
    case Top => Ok(map[])
    case At(name) => Remove(t, name)
  }

  function Delete(t: Tree, paths: seq<string>): Result<Tree, string> {
    if paths == [] then Ok(t)
    else
      match Delete(t, paths[..|paths| - 1])
      case Err(e) => Err(e)
      case Ok(u) => RemoveAll(u, paths[|paths| - 1])
  }

  predicate Wanted(raw: string, selected: seq<string>) {
    selected == [] || Selected(CleanName(raw), selected)
  }

  function Chosen(items: seq<Item>, selected: seq<string>): seq<Item> {
    if items == [] then []
    else
      var last := items[|items| - 1];
      Chosen(items[..|items| - 1], selected) + (if Wanted(last.path, selected) then [last] else [])
  }

  function SelectedPaths(paths: seq<string>, selected: seq<string>): seq<string> {
    if paths == [] then []
    else
      var last := paths[|paths| - 1];
      SelectedPaths(paths[..|paths| - 1], selected) + (if Selected(CleanName(last), selected) then [last] else [])
  }

  function ChosenPaths(paths: seq<string>, selected: seq<string>): seq<string> {
    if selected == [] then paths else SelectedPaths(paths, selected)
  }

  datatype Archive = Archive(items: seq<Item>, deletions: seq<string>)

  /** Extracts what is selected, then deletes what is selected. */
  function Restore(t: Tree, a: Archive, selected: seq<string>): Result<Tree, string> {
    match Extract(t, Chosen(a.items, selected))
    case Err(e) => Err(e)
    case Ok(u) => Delete(u, ChosenPaths(a.deletions, selected))
  }

  // ------------------------------------------------------------ laid-out entries

  /** Directories the names of these entries pass through. */
  function Above(e: Entries): set<string> {
    set p, d | p in e && d in Ancestors(p) :: d
  }

  /** The tree of these entries and the directories above them. */
  function Laid(e: Entries): Tree {
    map p | p in e.Keys + Above(e) :: if p in e then Laid1(e[p]) else DirAt
  }

  /** Nothing lies below a file, and every entry has a name. */
  ghost predicate Consistent(e: Entries) {
    "" !in e && forall d :: d in Above(e) && d in e ==> e[d].Dir?
  }

  predicate SameKind(a: Fs, b: Fs) {
    a.DirAt? <==> b.DirAt?
  }

  /** Where both have something, both have a file or both have a directory. */
  predicate NoClash(t: Tree, u: Tree) {
    forall p :: p in t && p in u ==> SameKind(t[p], u[p])
  }

  function Overlay(t: Tree, u: Tree): Tree {
    map p | p in t.Keys + u.Keys :: if p in u then u[p] else t[p]
  }

  function One(item: Item): Tree {
    map p | p in Ancestors(item.path) + {item.path} :: if p == item.path then Laid1(item.node) else DirAt
  }

  lemma NotOwnAncestor(p: string)
    ensures p !in Ancestors(p)
  {
  }

  /** Creating an entry lays it out over the tree, or finds a node of the wrong kind in the way. */
  lemma LayIsOverlay(t: Tree, item: Item)
    ensures Lay(t, item).Ok? <==> NoClash(t, One(item))
    ensures Lay(t, item).Ok? ==> Lay(t, item).value == Overlay(t, One(item))
  {
    hide Ancestors;
    NotOwnAncestor(item.path);
    if NoClash(t, One(item)) {
      forall d | d in Ancestors(item.path) && d in t ensures t[d].DirAt? { assert d in One(item); }
      assert item.path in One(item);
    }
    if Lay(t, item).Ok? {
      assert NoClash(t, One(item));
    }
  }

  /** What an archive entry lays out, once its name is cleaned. */
  function OneOf(item: Item): Tree {
    match PlaceOf(item.path)
    case At(name) => One(Item(name, item.node))
    case _ => map[]
  }

  predicate Refused(item: Item) {
    PlaceOf(item.path) == Outside || (PlaceOf(item.path) == Top && item.node.File?)
  }

  lemma PutIsOverlay(t: Tree, item: Item)
    ensures Put(t, item).Ok? <==> !Refused(item) && NoClash(t, OneOf(item))
    ensures Put(t, item).Ok? ==> Put(t, item).value == Overlay(t, OneOf(item))
  {
    hide Lay, One, PlaceOf;
    match PlaceOf(item.path) {
      case At(name) => LayIsOverlay(t, Item(name, item.node));
      case _ => assert NoClash(t, map[]) && Overlay(t, map[]) == t;
    }
  }

  predicate TidyItems(items: seq<Item>) {
    forall i :: 0 <= i < |items| ==> Tidy(items[i].path)
  }

  predicate TidyNames(e: Entries) {
    forall p :: p in e ==> Tidy(p)
  }

  lemma TidyPut(item: Item)
    requires Tidy(item.path)
    ensures OneOf(item) == One(item) && !Refused(item)
  {
    hide PlaceOf, Tidy;
    TidyStays(item.path);
  }

  lemma AboveMore(e: Entries, item: Item)
    ensures Above(e[item.path := item.node]) == Above(e) + Ancestors(item.path)
  {
    hide Ancestors;
    var f := e[item.path := item.node];
    forall d | d in Above(e) ensures d in Above(f) {
      var p :| p in e && d in Ancestors(p);
      assert p in f;
    }
    forall d | d in Ancestors(item.path) ensures d in Above(f) {
      assert item.path in f;
    }
  }

  lemma ConsistentLess(e: Entries, item: Item)
    requires item.path !in e && Consistent(e[item.path := item.node])
    ensures Consistent(e)
  {
    hide Ancestors, Above;
    AboveMore(e, item);
  }

  /** One entry more: its own layout over that of the others. */
  lemma LaidMore(e: Entries, item: Item)
    requires item.path !in e && Consistent(e[item.path := item.node])
    ensures Laid(e[item.path := item.node]) == Overlay(Laid(e), One(item)) && NoClash(Laid(e), One(item))
  {
    hide Ancestors, Above;
    AboveMore(e, item);
    NotOwnAncestor(item.path);
  }

  lemma OverlayTwice(t: Tree, u: Tree, v: Tree)
    requires NoClash(u, v)
    ensures Overlay(t, Overlay(u, v)) == Overlay(Overlay(t, u), v)
    ensures NoClash(t, u) ==> (NoClash(t, Overlay(u, v)) <==> NoClash(Overlay(t, u), v))
    ensures NoClash(t, Overlay(u, v)) ==> NoClash(t, u)
  {
  }

  /** A list of entries extracts exactly if nothing in the tree is in the way, whatever its order. */
  lemma {:induction false} ExtractIsOverlay(t: Tree, items: seq<Item>)
    requires DistinctPaths(items) && TidyItems(items) && Consistent(Index(items))
    ensures Extract(t, items).Ok? <==> NoClash(t, Laid(Index(items)))
    ensures Extract(t, items).Ok? ==> Extract(t, items).value == Overlay(t, Laid(Index(items)))
  {
    hide Put, Laid, NoClash, Overlay, Consistent, One, OneOf, Refused, Tidy;
    if items == [] {
      NothingLaid(t);
    } else {
      var init, last := items[..|items| - 1], items[|items| - 1];
      IndexNames(init);
      var e := Index(init);
      ConsistentLess(e, last);
      ExtractIsOverlay(t, init);
      LaidMore(e, last);
      OverlayTwice(t, Laid(e), One(last));
      PutIsOverlay(Overlay(t, Laid(e)), last);
      TidyPut(last);
    }
  }

  lemma NothingLaid(t: Tree)
    ensures Laid(map[]) == map[] && NoClash(t, map[]) && Overlay(t, map[]) == t
  {
    assert Above(map[]) == {};
  }

  function Names(items: seq<Item>): set<string> {
    set i | 0 <= i < |items| :: items[i].path
  }

  lemma {:induction false} IndexNames(items: seq<Item>)
    ensures Index(items).Keys == Names(items)
  {
    if items != [] {
      var init, last := items[..|items| - 1], items[|items| - 1];
      IndexNames(init);
      forall p | p in Names(items) ensures p in Names(init) + {last.path} {
        var i :| 0 <= i < |items| && items[i].path == p;
        assert i < |init| ==> init[i].path == p;
      }
      forall p | p in Names(init) + {last.path} ensures p in Names(items) {
        if p in Names(init) {
          var i :| 0 <= i < |init| && init[i].path == p;
          assert items[i].path == p;
        }
      }
    }
  }

  /** `p` is one of these paths or below one. */
  predicate Gone(p: string, paths: set<string>) {
    p in paths || exists x :: x in paths && Below(p, x)
  }

  function Without(t: Tree, paths: set<string>): Tree {
    map p | p in t && !Gone(p, paths) :: t[p]
  }

  function Set(paths: seq<string>): set<string> {
    set p | p in paths
  }

  /** The names these deletions lead to. */
  function Places(paths: seq<string>): set<string> {
    set x | x in paths && PlaceOf(x).At? :: PlaceOf(x).name
  }

  lemma TidyPlaces(paths: seq<string>)
    requires forall x :: x in paths ==> Tidy(x)
    ensures Places(paths) == Set(paths) && forall x :: x in paths ==> PlaceOf(x) == At(x)
  {
    hide PlaceOf, Tidy;
    forall x | x in paths ensures PlaceOf(x) == At(x) { TidyStays(x); }
  }

  /** Deletion `i` leads somewhere, and any file above that place is gone by then. */
  ghost predicate Deletes(t: Tree, paths: seq<string>, i: nat)
    requires i < |paths|
  {
    && PlaceOf(paths[i]) != Outside
    && (PlaceOf(paths[i]).At? ==> forall d :: d in Ancestors(PlaceOf(paths[i]).name) && d in t && t[d].FileAt? ==>
          Top in Leads(paths[..i]) || Gone(d, Places(paths[..i])))
  }

  function Leads(paths: seq<string>): set<Place> {
    set x | x in paths :: PlaceOf(x)
  }

  lemma LeadsSnoc(paths: seq<string>, last: string)
    ensures Top in Leads(paths + [last]) <==> Top in Leads(paths) || PlaceOf(last) == Top
  {
    hide PlaceOf;
    if Top in Leads(paths) {
      var x :| x in paths && PlaceOf(x) == Top;
      assert x in paths + [last];
    }
    if PlaceOf(last) == Top {
      assert last in paths + [last];
    }
    if Top in Leads(paths + [last]) {
      var x :| x in paths + [last] && PlaceOf(x) == Top;
    }
  }

  /** What any list of deletions does to any tree: when it goes through, and what is left. */
  lemma {:induction false} DeletesIff(t: Tree, paths: seq<string>)
    ensures Delete(t, paths).Ok? <==> forall i :: 0 <= i < |paths| ==> Deletes(t, paths, i)
    ensures Delete(t, paths).Ok? ==>
      Delete(t, paths).value == if Top in Leads(paths) then map[] else Without(t, Places(paths))
  {
    hide Ancestors, PlaceOf, Below, Gone, Leads;
    if paths == [] {
      NothingDeleted(t);
    } else {
      var init, last := paths[..|paths| - 1], paths[|paths| - 1];
      assert paths == init + [last];
      DeletesIff(t, init);
      LeadsSnoc(init, last);
      PlacesSnoc(init, last);
      forall i | 0 <= i < |init| ensures Deletes(t, init, i) <==> Deletes(t, paths, i) {
        assert init[i] == paths[i] && init[..i] == paths[..i];
      }
      assert paths[..|init|] == init && paths[|init|] == last;
      hide Deletes;
      if Delete(t, init).Ok? {
        RemovedNext(t, paths);
      }
    }
  }

  lemma NothingDeleted(t: Tree)
    ensures Top !in Leads([]) && Without(t, Places([])) == t
  {
    assert Places([]) == {};
  }

  lemma RemovedNext(t: Tree, paths: seq<string>)
    requires paths != []
    ensures var init, last := paths[..|paths| - 1], paths[|paths| - 1];
      var before := if Top in Leads(init) then map[] else Without(t, Places(init));
      && (RemoveAll(before, last).Ok? <==> Deletes(t, paths, |init|))
      && (RemoveAll(before, last).Ok? ==>
            RemoveAll(before, last).value ==
              if Top in Leads(init) || PlaceOf(last) == Top then map[]
              else Without(t, Places(init) + if PlaceOf(last).At? then {PlaceOf(last).name} else {}))
  {
    hide Ancestors, PlaceOf, Below, Gone, Leads;
    var init, last := paths[..|paths| - 1], paths[|paths| - 1];
    assert paths[..|init|] == init && paths[|init|] == last;
    if PlaceOf(last).At? && Top !in Leads(init) {
      RemovedName(t, Places(init), PlaceOf(last).name);
    } else {
      assert Places(init) + {} == Places(init);
    }
  }

  lemma RemovedName(t: Tree, gone: set<string>, x: string)
    ensures var r := Remove(Without(t, gone), x);
      && (r.Ok? <==> forall d :: d in Ancestors(x) && d in t && t[d].FileAt? ==> Gone(d, gone))
      && (r.Ok? ==> r.value == Without(t, gone + {x}))
  {
    hide Ancestors, Below;
    var u := Without(t, gone);
    assert Remove(u, x).Ok? ==> Remove(u, x).value == map p | p in u && p != x && !Below(p, x) :: u[p];
    hide Remove;
    forall p ensures Gone(p, gone + {x}) <==> Gone(p, gone) || p == x || Below(p, x) {
      GoneMore(p, gone, x);
    }
  }

  lemma GoneMore(p: string, gone: set<string>, x: string)
    ensures Gone(p, gone + {x}) <==> Gone(p, gone) || p == x || Below(p, x)
  {
    hide Below;
    if Below(p, x) { assert x in gone + {x}; }
    if y :| y in gone && Below(p, y) { assert y in gone + {x}; }
  }

  lemma PlacesSnoc(paths: seq<string>, last: string)
    ensures Places(paths + [last]) == Places(paths) + if PlaceOf(last).At? then {PlaceOf(last).name} else {}
  {
    hide PlaceOf;
    forall x | x in paths + [last] && PlaceOf(x).At?
      ensures PlaceOf(x).name in Places(paths) + if PlaceOf(last).At? then {PlaceOf(last).name} else {}
    {
      assert x in paths || x == last;
    }
    assert forall x :: x in paths ==> x in paths + [last];
    assert last in paths + [last];
  }

  /** Deletions that stay below the target remove just what they lead to. */
  lemma DeleteIsWithout(t: Tree, paths: seq<string>)
    requires forall x :: x in paths ==> PlaceOf(x) != Outside && PlaceOf(x) != Top
    requires forall x, d :: x in Places(paths) && d in Ancestors(x) && d in t ==> t[d].DirAt?
    ensures Delete(t, paths) == Ok(Without(t, Places(paths)))
  {
    hide Below, Ancestors, PlaceOf, Delete, Gone;
    DeletesIff(t, paths);
    forall i | 0 <= i < |paths| ensures Deletes(t, paths, i) {
      assert paths[i] in paths;
      assert PlaceOf(paths[i]).At? ==> PlaceOf(paths[i]).name in Places(paths);
    }
  }

  // ------------------------------------------------------------ base plus difference

  ghost predicate IsFull(a: Archive, e: Entries) {
    DistinctPaths(a.items) && Index(a.items) == e && a.deletions == []
  }

  ghost predicate IsDifferential(a: Archive, base: Base, e: Entries) {
    && DistinctPaths(a.items) && Index(a.items) == Difference(base, e)
    && Set(a.deletions) == base.Keys - e.Keys
  }

  /** Every entry is there, with its kind and content. */
  ghost predicate Shows(t: Tree, e: Entries) {
    forall p :: p in e ==> p in t && t[p] == Laid1(e[p])
  }

  /** Same size and time means same content, for files in both. */
  ghost predicate TellingFingerprints(e0: Entries, e1: Entries) {
    forall p :: p in e0 && p in e1 && e0[p].File? && e1[p].File? && FingerprintOf(e0[p]) == FingerprintOf(e1[p])
        ==> e0[p].content == e1[p].content
  }

  /**
   * No path changes kind, prints tell files apart, and no entry of the base has become a
   * directory that is only implied by what lies below it.
   */
  ghost predicate Compatible(e0: Entries, e1: Entries) {
    && NoClash(Laid(e0), Laid(e1)) && TellingFingerprints(e0, e1)
    && forall p :: p in e0 && p in Above(e1) ==> p in e1
  }

  /** The current tree, and directories above the base entries that nothing removed. */
  function Merged(e0: Entries, e1: Entries): Tree {
    map p | p in Laid(e1).Keys + Above(e0) && (p in Laid(e1) || (p !in e0 && !Gone(p, e0.Keys - e1.Keys))) ::
      if p in Laid(e1) then Laid(e1)[p] else DirAt
  }

  lemma {:induction false} ChosenAll(items: seq<Item>)
    ensures Chosen(items, []) == items
  {
    hide Selected, CleanName;
    if items != [] {
      ChosenAll(items[..|items| - 1]);
      assert items == items[..|items| - 1] + [items[|items| - 1]];
    }
  }

  lemma {:induction false} IndexedTidy(items: seq<Item>)
    requires TidyNames(Index(items))
    ensures TidyItems(items)
  {
    hide Tidy;
    IndexNames(items);
    forall i | 0 <= i < |items| ensures Tidy(items[i].path) {
      assert items[i].path in Names(items);
    }
  }

  /** Restoring a full archive of tidy names into an empty place lays out its entries. */
  lemma FullRestores(a: Archive, e: Entries)
    requires IsFull(a, e) && Consistent(e) && TidyNames(e)
    ensures Restore(map[], a, []) == Ok(Laid(e))
  {
    hide Laid, Consistent, DistinctPaths, Index, TidyNames;
    ChosenAll(a.items);
    IndexedTidy(a.items);
    ExtractIsOverlay(map[], a.items);
    assert NoClash(map[], Laid(e)) && Overlay(map[], Laid(e)) == Laid(e);
  }

  // ------------------------------------------------------------ the theorem

  lemma DifferenceConsistent(base: Base, e: Entries)
    requires Consistent(e)
    ensures Consistent(Difference(base, e))
    ensures forall p :: p in Laid(Difference(base, e)) ==> p in Laid(e) && Laid(Difference(base, e))[p] == Laid(e)[p]
  {
    hide Ancestors, ChangedSince;
    var d := Difference(base, e);
    forall p | p in Above(d) ensures p in Above(e) {
      var q :| q in d && p in Ancestors(q);
      assert q in e;
    }
  }

  /** The directories above a base entry are directories of the restored base. */
  lemma AboveBase(e0: Entries, x: string, d: string)
    requires Consistent(e0) && x in e0 && d in Ancestors(x)
    ensures d in Laid(e0) && Laid(e0)[d] == DirAt
  {
    hide Ancestors;
    assert d in Above(e0);
  }

  /** What a differential restore does to the restored base: overlay, then removal. */
  lemma RestoreOnBase(e0: Entries, e1: Entries, a: Archive)
    requires Consistent(e0) && Consistent(e1) && IsDifferential(a, Manifest(e0), e1) && TidyNames(e0) && TidyNames(e1)
    ensures var d := Difference(Manifest(e0), e1);
      var r := Restore(Laid(e0), a, []);
      && (r.Ok? <==> NoClash(Laid(e0), Laid(d)))
      && (r.Ok? ==> r.value == Without(Overlay(Laid(e0), Laid(d)), e0.Keys - e1.Keys))
  {
    hide Laid, Consistent, DistinctPaths, Index, Ancestors, Without, Tidy, ChangedSince;
    var d := Difference(Manifest(e0), e1);
    assert TidyNames(d);
    hide Difference, TidyNames;
    DifferenceConsistent(Manifest(e0), e1);
    ChosenAll(a.items);
    IndexedTidy(a.items);
    ExtractIsOverlay(Laid(e0), a.items);
    if NoClash(Laid(e0), Laid(d)) {
      var t := Overlay(Laid(e0), Laid(d));
      assert Set(a.deletions) == e0.Keys - e1.Keys;
      DeletionsTidy(a.deletions, e0);
      TidyPlaces(a.deletions);
      forall x, b | x in Places(a.deletions) && b in Ancestors(x) && b in t ensures t[b].DirAt? {
        AboveBase(e0, x, b);
      }
      DeleteIsWithout(t, a.deletions);
    }
  }

  lemma DeletionsTidy(paths: seq<string>, e: Entries)
    requires TidyNames(e) && Set(paths) <= e.Keys
    ensures forall x :: x in paths ==> Tidy(x)
  {
    hide Tidy;
    forall x | x in paths ensures Tidy(x) {
      assert x in Set(paths);
    }
  }

  lemma AboveLaid(e: Entries, p: string, x: string)
    requires p in Laid(e) && x in Ancestors(p)
    ensures x in Above(e)
  {
    hide Below, Ancestors;
    if p !in e {
      var q :| q in e && p in Ancestors(q);
      BelowTransitive(q, p, x);
    }
  }

  /** No deletion touches anything of the current tree. */
  lemma DeletionsMiss(e0: Entries, e1: Entries, p: string)
    requires Consistent(e0) && Compatible(e0, e1) && p in Laid(e1)
    ensures !Gone(p, e0.Keys - e1.Keys)
  {
    hide Below, Ancestors, Above, NoClash, TellingFingerprints;
    if Gone(p, e0.Keys - e1.Keys) && p !in e0.Keys - e1.Keys {
      var x :| x in e0.Keys - e1.Keys && Below(p, x);
      AboveLaid(e1, p, x);
    }
  }

  /** What is neither archived nor deleted is unchanged. */
  lemma UnchangedIsCurrent(e0: Entries, e1: Entries, p: string)
    requires Compatible(e0, e1) && p in e0 && p in e1 && p !in Difference(Manifest(e0), e1)
    ensures Laid1(e0[p]) == Laid1(e1[p])
  {
    hide Ancestors, Above;
    assert p in Laid(e0) && p in Laid(e1);
  }

  lemma NewIsArchived(base: Base, e: Entries, p: string)
    ensures p in e && p !in Difference(base, e) ==> p in base
  {
  }

  lemma CurrentIsOverlaid(e0: Entries, e1: Entries, p: string)
    requires Consistent(e1) && Compatible(e0, e1) && p in Laid(e1)
    ensures var t := Overlay(Laid(e0), Laid(Difference(Manifest(e0), e1)));
      p in t && t[p] == Laid(e1)[p]
  {
    hide Ancestors, Below, ChangedSince;
    var d := Difference(Manifest(e0), e1);
    DifferenceConsistent(Manifest(e0), e1);
    if p !in Laid(d) {
      if p in e1 {
        NewIsArchived(Manifest(e0), e1, p);
        UnchangedIsCurrent(e0, e1, p);
      } else {
        var q :| q in e1 && p in Ancestors(q);
        assert q in d ==> p in Above(d);
        NewIsArchived(Manifest(e0), e1, q);
        assert p in Above(e0);
      }
    }
  }

  /** Anything more that a restore leaves is a directory above base entries. */
  lemma OverlaidIsCurrent(e0: Entries, e1: Entries, p: string)
    requires Consistent(e1) && p in Overlay(Laid(e0), Laid(Difference(Manifest(e0), e1))) && p !in Laid(e1)
    requires p !in e0.Keys - e1.Keys
    ensures p in Above(e0) && p !in e0 && Overlay(Laid(e0), Laid(Difference(Manifest(e0), e1)))[p] == DirAt
  {
    hide Ancestors, Above;
    DifferenceConsistent(Manifest(e0), e1);
  }

  lemma CompatibleRestores(e0: Entries, e1: Entries)
    requires Consistent(e0) && Consistent(e1) && Compatible(e0, e1)
    ensures var d := Difference(Manifest(e0), e1);
      && NoClash(Laid(e0), Laid(d))
      && Without(Overlay(Laid(e0), Laid(d)), e0.Keys - e1.Keys) == Merged(e0, e1)
  {
    hide Below, Ancestors, Above, Consistent, Difference, TellingFingerprints;
    var d := Difference(Manifest(e0), e1);
    DifferenceConsistent(Manifest(e0), e1);
    assert NoClash(Laid(e0), Laid(d));
    hide Laid, NoClash, Compatible, Manifest;
    var gone := e0.Keys - e1.Keys;
    var t := Overlay(Laid(e0), Laid(d));
    forall p | p in Laid(e1) ensures p in t && !Gone(p, gone) && t[p] == Laid(e1)[p] {
      DeletionsMiss(e0, e1, p);
      CurrentIsOverlaid(e0, e1, p);
    }
    forall p | p in t && !Gone(p, gone) && p !in Laid(e1) ensures p in Above(e0) && p !in e0 && t[p] == DirAt {
      OverlaidIsCurrent(e0, e1, p);
    }
    forall p | p in Above(e0) ensures p in t { AboveIsLaid(e0, p); }
    hide Overlay;
    MergedFrom(e0, e1, t);
  }

  lemma AboveIsLaid(e: Entries, p: string)
    requires p in Above(e)
    ensures p in Laid(e)
  {
  }

  lemma MergedFrom(e0: Entries, e1: Entries, t: Tree)
    requires forall p :: p in Laid(e1) ==> p in t && !Gone(p, e0.Keys - e1.Keys) && t[p] == Laid(e1)[p]
    requires forall p :: p in t && !Gone(p, e0.Keys - e1.Keys) && p !in Laid(e1) ==>
      p in Above(e0) && p !in e0 && t[p] == DirAt
    requires forall p :: p in Above(e0) ==> p in t
    ensures Without(t, e0.Keys - e1.Keys) == Merged(e0, e1)
  {
    hide Laid, Above, Gone;
  }

  /** If the current entries all come back, nothing changed kind, prints were telling, no deletion was too much. */
  lemma RestoredIsCompatible(e0: Entries, e1: Entries)
    requires Consistent(e0) && Consistent(e1)
    requires NoClash(Laid(e0), Laid(Difference(Manifest(e0), e1)))
    requires Shows(Without(Overlay(Laid(e0), Laid(Difference(Manifest(e0), e1))), e0.Keys - e1.Keys), e1)
    ensures Compatible(e0, e1)
  {
    hide Below, Ancestors, Above, Consistent, NoClash, Without, Overlay, Laid;
    forall p | p in e0 && p in Above(e1) ensures p in e1 { ShownNotGone(e0, e1, p); }
    forall p | p in e0 && p in e1 && e0[p].File? && e1[p].File?
        && FingerprintOf(e0[p]) == FingerprintOf(e1[p])
      ensures e0[p].content == e1[p].content
    {
      KeptFromBase(e0, e1, p);
    }
    forall p | p in Laid(e0) && p in Laid(e1) ensures SameKind(Laid(e0)[p], Laid(e1)[p]) {
      ShownKind(e0, e1, p);
    }
    NoClashIntro(Laid(e0), Laid(e1));
  }

  lemma NoClashIntro(t: Tree, u: Tree)
    requires forall p :: p in t && p in u ==> SameKind(t[p], u[p])
    ensures NoClash(t, u)
  {
  }

  /** A deleted path has nothing current below it. */
  lemma ShownNotGone(e0: Entries, e1: Entries, p: string)
    requires Consistent(e0) && p in e0 && p in Above(e1)
    requires Shows(Without(Overlay(Laid(e0), Laid(Difference(Manifest(e0), e1))), e0.Keys - e1.Keys), e1)
    ensures p in e1
  {
    hide Below, Laid, Difference, Overlay, Gone;
    var q :| q in e1 && p in Ancestors(q);
    GoneBelow(q, p, e0.Keys - e1.Keys);
  }

  lemma GoneBelow(q: string, p: string, paths: set<string>)
    ensures p in Ancestors(q) && p in paths ==> Gone(q, paths)
  {
    hide Below;
  }

  /** An unchanged entry shows what the base had. */
  lemma KeptFromBase(e0: Entries, e1: Entries, p: string)
    requires Consistent(e1) && p in e0 && p in e1 && FingerprintOf(e0[p]) == FingerprintOf(e1[p])
    requires Shows(Without(Overlay(Laid(e0), Laid(Difference(Manifest(e0), e1))), e0.Keys - e1.Keys), e1)
    ensures e1[p].File? ==> Laid1(e0[p]) == Laid1(e1[p])
  {
    hide Ancestors, Below, Gone;
    var d := Difference(Manifest(e0), e1);
    DifferenceConsistent(Manifest(e0), e1);
    assert p !in d;
    if e1[p].File? {
      assert p !in Above(e1);
      assert p !in Laid(d);
    }
  }

  lemma ShownKind(e0: Entries, e1: Entries, p: string)
    requires Consistent(e0) && Consistent(e1) && p in Laid(e0) && p in Laid(e1)
    requires NoClash(Laid(e0), Laid(Difference(Manifest(e0), e1)))
    requires Shows(Without(Overlay(Laid(e0), Laid(Difference(Manifest(e0), e1))), e0.Keys - e1.Keys), e1)
    ensures SameKind(Laid(e0)[p], Laid(e1)[p])
  {
    hide Ancestors, Below, Gone;
    var d := Difference(Manifest(e0), e1);
    DifferenceConsistent(Manifest(e0), e1);
    if p in Laid(d) {
    } else if p in e1 {
      assert p in e0 by { NewIsArchived(Manifest(e0), e1, p); }
      assert Overlay(Laid(e0), Laid(d))[p] == Laid(e0)[p];
    } else if p in e0 {
      ShownNotGone(e0, e1, p);
    }
  }

  /** The theorem for names that stay. */
  lemma TidyRestoresIff(e0: Entries, e1: Entries, diff: Archive)
    requires Consistent(e0) && Consistent(e1) && IsDifferential(diff, Manifest(e0), e1) && TidyNames(e0)
        && TidyNames(e1)
    ensures var r := Restore(Laid(e0), diff, []);
      && (Compatible(e0, e1) <==> r.Ok? && Shows(r.value, e1))
      && (Compatible(e0, e1) ==> r == Ok(Merged(e0, e1)))
  {
    hide Laid, Consistent, Above, Difference, NoClash, Overlay, Without, Merged, Compatible, IsDifferential, Restore,
      TidyNames;
    RestoreOnBase(e0, e1, diff);
    if Compatible(e0, e1) {
      CompatibleRestores(e0, e1);
      MergedShows(e0, e1);
    } else if Restore(Laid(e0), diff, []).Ok? && Shows(Restore(Laid(e0), diff, []).value, e1) {
      RestoredIsCompatible(e0, e1);
    }
  }

  lemma MergedShows(e0: Entries, e1: Entries)
    ensures Shows(Merged(e0, e1), e1)
  {
    hide Above, Gone;
  }

  // ------------------------------------------------------------ selective restore

  function Restrict(e: Entries, selected: seq<string>): Entries {
    map p | p in e && Wanted(p, selected) :: e[p]
  }

  lemma {:induction false} ChosenIndex(items: seq<Item>, selected: seq<string>)
    requires DistinctPaths(items)
    ensures Index(Chosen(items, selected)) == Restrict(Index(items), selected)
    ensures DistinctPaths(Chosen(items, selected)) && Names(Chosen(items, selected)) <= Names(items)
  {
    hide Wanted, Names;
    if items == [] {
      assert Names([]) == {} by { NoNames(); }
    } else {
      var init, last := items[..|items| - 1], items[|items| - 1];
      ChosenIndex(init, selected);
      var chosen := Chosen(init, selected);
      assert items == init + [last];
      NamesSnoc(init, last);
      NamesSnoc(chosen, last);
      LastIsNew(init, last);
      hide DistinctPaths, Index;
      IndexSnoc(init, last);
      IndexSnoc(chosen, last);
      RestrictSnoc(Index(init), last, selected);
      if Wanted(last.path, selected) {
        DistinctSnoc(chosen, last);
      } else {
        assert chosen + [] == chosen;
        IndexNames(init);
      }
    }
  }

  lemma NoNames()
    ensures Names([]) == {}
  {
  }

  lemma RestrictSnoc(e: Entries, last: Item, selected: seq<string>)
    ensures var f := e[last.path := last.node];
      if Wanted(last.path, selected) then Restrict(f, selected) == Restrict(e, selected)[last.path := last.node]
      else last.path !in e ==> Restrict(f, selected) == Restrict(e, selected)
  {
    hide Wanted;
  }

  lemma NamesSnoc(items: seq<Item>, last: Item)
    ensures Names(items + [last]) == Names(items) + {last.path}
  {
    var all := items + [last];
    forall p | p in Names(items) + {last.path} ensures p in Names(all) {
      if p in Names(items) {
        var i :| 0 <= i < |items| && items[i].path == p;
        assert all[i].path == p;
      } else {
        assert all[|items|].path == p;
      }
    }
    forall i | 0 <= i < |all| ensures all[i].path in Names(items) + {last.path} {
      assert i < |items| ==> all[i] == items[i];
    }
  }

  lemma LastIsNew(init: seq<Item>, last: Item)
    requires DistinctPaths(init + [last])
    ensures last.path !in Names(init)
  {
    var all := init + [last];
    forall i | 0 <= i < |init| ensures init[i].path != last.path {
      assert all[i] == init[i] && all[|init|] == last;
    }
  }

  lemma DistinctPrefix(items: seq<Item>, n: nat)
    requires DistinctPaths(items) && n <= |items|
    ensures DistinctPaths(items[..n])
  {
  }

  lemma DistinctSnoc(items: seq<Item>, last: Item)
    requires DistinctPaths(items) && last.path !in Names(items)
    ensures DistinctPaths(items + [last])
  {
    forall i | 0 <= i < |items| ensures items[i].path != last.path {
      assert items[i].path in Names(items);
    }
  }

  lemma {:induction false} SelectedExactly(paths: seq<string>, selected: seq<string>)
    ensures forall p :: p in SelectedPaths(paths, selected) <==> p in paths && Selected(CleanName(p), selected)
  {
    hide Selected, CleanName;
    if paths != [] {
      var init, last := paths[..|paths| - 1], paths[|paths| - 1];
      SelectedExactly(init, selected);
      assert forall p :: p in paths <==> p in init || p == last;
    }
  }

  /** A selected path is kept as often as it is listed. */
  lemma {:induction false} SelectedAsOften(paths: seq<string>, selected: seq<string>, p: string)
    ensures multiset(SelectedPaths(paths, selected))[p] ==
      if Selected(CleanName(p), selected) then multiset(paths)[p] else 0
  {
    hide Selected, CleanName;
    if paths != [] {
      var init, last := paths[..|paths| - 1], paths[|paths| - 1];
      assert paths == init + [last];
      SelectedAsOften(init, selected, p);
    }
  }

  lemma ChosenSet(paths: seq<string>, selected: seq<string>)
    ensures forall p :: p in ChosenPaths(paths, selected) <==> p in paths && Wanted(p, selected)
  {
    hide Selected, CleanName;
    SelectedExactly(paths, selected);
  }

  /** Of the entries, those the selection asks for are extracted. */
  lemma {:induction false} ChosenByElements(items: seq<Item>, selected: seq<string>)
    ensures forall item: Item, elements :: LeadsTo(item.path, elements) ==>
      (item in Chosen(items, selected) <==>
        item in items && (selected == [] || exists i :: 0 <= i < |selected| && AsksFor(selected[i], elements)))
  {
    hide Selected, CleanName, AsksFor, LeadsTo;
    if items != [] {
      var init, last := items[..|items| - 1], items[|items| - 1];
      ChosenByElements(init, selected);
      assert forall item :: item in items <==> item in init || item == last;
      forall elements | LeadsTo(last.path, elements)
        ensures Wanted(last.path, selected) <==>
          selected == [] || exists i :: 0 <= i < |selected| && AsksFor(selected[i], elements)
      {
        SelectedWhereItLeads(last.path, elements, selected);
      }
    }
  }

  function ChosenArchive(a: Archive, selected: seq<string>): Archive {
    Archive(Chosen(a.items, selected), ChosenPaths(a.deletions, selected))
  }

  /** Restoring a selection is restoring an archive that holds nothing else. */
  lemma SelectionIsArchive(t: Tree, a: Archive, selected: seq<string>)
    ensures Restore(t, a, selected) == Restore(t, ChosenArchive(a, selected), [])
  {
    ChosenAll(Chosen(a.items, selected));
  }

  lemma SelectedFull(a: Archive, e: Entries, selected: seq<string>)
    requires IsFull(a, e)
    ensures IsFull(ChosenArchive(a, selected), Restrict(e, selected))
  {
    hide Index, DistinctPaths, Restrict;
    ChosenIndex(a.items, selected);
  }

  lemma SelectedDifferential(a: Archive, e0: Entries, e1: Entries, selected: seq<string>)
    requires IsDifferential(a, Manifest(e0), e1)
    ensures IsDifferential(ChosenArchive(a, selected), Manifest(Restrict(e0, selected)), Restrict(e1, selected))
  {
    hide Index, DistinctPaths, Wanted;
    ChosenIndex(a.items, selected);
    ChosenSet(a.deletions, selected);
    var f0, f1 := Restrict(e0, selected), Restrict(e1, selected);
    assert Restrict(Difference(Manifest(e0), e1), selected) == Difference(Manifest(f0), f1);
    forall p ensures p in Set(ChosenPaths(a.deletions, selected)) <==> p in Manifest(f0).Keys - f1.Keys {
      assert p in a.deletions <==> p in Set(a.deletions);
    }
  }

  lemma TidyWanted(e: Entries, selected: seq<string>)
    requires TidyNames(e)
    ensures forall p :: p in e ==> (Wanted(p, selected) <==> selected == [] || Selected(p, selected))
    ensures TidyNames(Restrict(e, selected))
  {
    hide Tidy, CleanName, Selected;
    forall p | p in e ensures CleanName(p) == p { TidyStays(p); }
  }

  lemma RestrictLaid(e: Entries, selected: seq<string>)
    requires Consistent(e) && TidyNames(e)
    ensures Consistent(Restrict(e, selected)) && TidyNames(Restrict(e, selected))
    ensures forall p :: p in Laid(Restrict(e, selected)) ==>
      p in Laid(e) && Laid(Restrict(e, selected))[p] == Laid(e)[p]
    ensures Above(Restrict(e, selected)) <= Above(e)
    ensures forall p :: p in Above(e) && (selected == [] || Selected(p, selected)) ==> p in Above(Restrict(e, selected))
  {
    hide Ancestors, Selected, Below, Wanted, TidyNames;
    TidyWanted(e, selected);
    var f := Restrict(e, selected);
    forall p | p in Above(f) ensures p in Above(e) {
      var q :| q in f && p in Ancestors(q);
      assert q in e;
    }
    forall p | p in Above(e) && (selected == [] || Selected(p, selected)) ensures p in Above(f) {
      var q :| q in e && p in Ancestors(q);
      if selected != [] { SelectedDownwards(q, p, selected); }
      assert q in f;
    }
    RestrictLaidSame(e, selected);
  }

  lemma RestrictLaidSame(e: Entries, selected: seq<string>)
    requires Consistent(e) && Above(Restrict(e, selected)) <= Above(e)
    ensures forall p :: p in Laid(Restrict(e, selected)) ==>
      p in Laid(e) && Laid(Restrict(e, selected))[p] == Laid(e)[p]
  {
    hide Ancestors, Wanted, Above;
  }

  lemma RestrictCompatible(e0: Entries, e1: Entries, selected: seq<string>)
    requires Consistent(e0) && Consistent(e1) && Compatible(e0, e1) && TidyNames(e0) && TidyNames(e1)
    ensures Compatible(Restrict(e0, selected), Restrict(e1, selected))
  {
    hide Above, Wanted, Laid, TidyNames;
    RestrictLaid(e0, selected);
    RestrictLaid(e1, selected);
    TidyWanted(e0, selected);
    TidyWanted(e1, selected);
    AboveWanted(e0, e1, selected);
  }

  /** What lies above a wanted current entry is wanted, if it is wanted as a base entry. */
  lemma AboveWanted(e0: Entries, e1: Entries, selected: seq<string>)
    ensures forall p :: p in Restrict(e0, selected) && p in e1 ==> p in Restrict(e1, selected)
  {
    hide Wanted;
  }

  // ------------------------------------------------------------ the walk

  /** What an exclusion list says about a name and whether it is a directory. */
  type Exclusion = (string, bool) -> bool

  /** A source tree, named relative to its roots' parents: what lies above a node is a directory of the tree. */
  ghost predicate SourceTree(s: Entries, roots: set<string>) {
    && "" !in s && (forall r :: r in roots ==> Ancestors(r) == {})
    && (forall p, d :: p in s && d in Ancestors(p) ==> d in s && s[d].Dir?)
  }

  /** Root directories are not entries, and nothing excluded or below an excluded directory is. */
  predicate Visited(roots: set<string>, excluded: Exclusion, p: string, isDir: bool) {
    && !(p in roots && isDir) && !excluded(p, isDir)
    && forall d :: d in Ancestors(p) ==> !excluded(d, true)
  }

  function Walk(s: Entries, roots: set<string>, excluded: Exclusion): Entries {
    map p | p in s && Visited(roots, excluded, p, s[p].Dir?) :: s[p]
  }

  /** No directory between an entry and another one below it is missing. */
  ghost predicate Walked(e: Entries) {
    Consistent(e) && forall d, x :: d in Above(e) && x in Ancestors(d) && x in e ==> d in e
  }

  lemma WalkIsWalked(s: Entries, roots: set<string>, excluded: Exclusion)
    requires SourceTree(s, roots)
    ensures Walked(Walk(s, roots, excluded))
  {
    hide Ancestors, Below;
    var e := Walk(s, roots, excluded);
    forall d, x | d in Above(e) && x in Ancestors(d) && x in e ensures d in e {
      var p :| p in e && d in Ancestors(p);
      assert d in s && s[d].Dir?;
      forall b | b in Ancestors(d) ensures b in Ancestors(p) { AncestorsNest(p, d, b); }
    }
  }

  /**
   * For two walks under the same roots, being compatible is just this: no path changes
   * kind, and equal size and time mean equal content.
   */
  lemma CompatibleWalksIff(s0: Entries, s1: Entries, roots: set<string>, excluded0: Exclusion, excluded1: Exclusion)
    requires SourceTree(s0, roots) && SourceTree(s1, roots)
    ensures var e0, e1 := Walk(s0, roots, excluded0), Walk(s1, roots, excluded1);
      Compatible(e0, e1) <==> NoClash(Laid(e0), Laid(e1)) && TellingFingerprints(e0, e1)
  {
    hide Ancestors, Below, TellingFingerprints;
    var e0, e1 := Walk(s0, roots, excluded0), Walk(s1, roots, excluded1);
    if NoClash(Laid(e0), Laid(e1)) {
      forall p | p in e0 && p in Above(e1) ensures p in e1 {
        var q :| q in e1 && p in Ancestors(q);
        assert p in s1 && s1[p].Dir?;
        forall b | b in Ancestors(p) ensures b in Ancestors(q) { AncestorsNest(q, p, b); }
        assert p in Laid(e0) && p in Laid(e1);
      }
    }
  }

  lemma AncestorsNest(p: string, d: string, b: string)
    requires d in Ancestors(p) && b in Ancestors(d)
    ensures b in Ancestors(p)
  {
    hide Below;
    BelowTransitive(p, d, b);
  }

  // ------------------------------------------------------------ selective restore is restriction

  /** Of two trees, the same nodes within the selection. */
  ghost predicate SameSelected(t: Tree, u: Tree, selected: seq<string>) {
    forall p :: Selected(p, selected) ==> (p in t <==> p in u) && (p in t ==> t[p] == u[p])
  }

  /** No implied directory of a walk is removed by a deletion. */
  lemma ImpliedStay(e0: Entries, paths: set<string>, p: string)
    requires Walked(e0) && p in Above(e0) && p !in e0 && paths <= e0.Keys
    ensures !Gone(p, paths)
  {
    hide Below;
  }

  lemma RestrictMerged(e0: Entries, e1: Entries, selected: seq<string>)
    requires Walked(e0) && Consistent(e1) && TidyNames(e0) && TidyNames(e1) && selected != []
    ensures SameSelected(Merged(Restrict(e0, selected), Restrict(e1, selected)), Merged(e0, e1), selected)
  {
    hide Ancestors, Below, Gone, Selected, Above, Wanted, TidyNames, Consistent;
    var f0, f1 := Restrict(e0, selected), Restrict(e1, selected);
    RestrictLaid(e0, selected);
    RestrictLaid(e1, selected);
    TidyWanted(e0, selected);
    TidyWanted(e1, selected);
    forall p | Selected(p, selected)
      ensures p in Merged(f0, f1) <==> p in Merged(e0, e1)
      ensures p in Merged(f0, f1) ==> Merged(f0, f1)[p] == Merged(e0, e1)[p]
    {
      SelectedLaid(e1, selected, p);
      SelectedLaid(e0, selected, p);
      if p in Above(e0) && p !in e0 {
        ImpliedStay(e0, e0.Keys - e1.Keys, p);
        ImpliedStay(e0, f0.Keys - f1.Keys, p);
      }
      hide Laid, Restrict;
    }
  }

  /** Within the selection the restricted entries lay out what all of them do. */
  lemma SelectedLaid(e: Entries, selected: seq<string>, p: string)
    requires Consistent(e) && TidyNames(e) && selected != [] && Selected(p, selected)
    ensures p in e <==> p in Restrict(e, selected)
    ensures p in Above(e) <==> p in Above(Restrict(e, selected))
    ensures p in Laid(e) <==> p in Laid(Restrict(e, selected))
  {
    hide Ancestors, Selected, Above, Wanted, TidyNames, Consistent;
    RestrictLaid(e, selected);
    TidyWanted(e, selected);
  }

  /**
   * Restoring the selection from both archives gives the full result restricted to the
   * selected subtrees, and besides them nothing but directories leading to them.
   */
  lemma SelectiveIsRestriction(e0: Entries, e1: Entries, full: Archive, diff: Archive, selected: seq<string>)
    requires Walked(e0) && Walked(e1) && Compatible(e0, e1) && selected != []
    requires IsFull(full, e0) && IsDifferential(diff, Manifest(e0), e1) && TidyNames(e0) && TidyNames(e1)
    ensures var base := Restore(map[], full, selected);
      && base.Ok?
      && var r, whole := Restore(base.value, diff, selected), Restore(Laid(e0), diff, []);
      && r.Ok? && whole.Ok? && SameSelected(r.value, whole.value, selected)
      && forall p :: p in r.value && !Selected(p, selected) ==> r.value[p] == DirAt
  {
    hide Laid, Consistent, Above, Difference, Compatible, IsFull, IsDifferential, Restore, Restrict, Merged, Selected,
      ChosenArchive, Manifest, SameSelected, TidyNames;
    var f0, f1 := Restrict(e0, selected), Restrict(e1, selected);
    SelectionIsArchive(map[], full, selected);
    SelectedFull(full, e0, selected);
    RestrictLaid(e0, selected);
    RestrictLaid(e1, selected);
    RestrictCompatible(e0, e1, selected);
    SelectedDifferential(diff, e0, e1, selected);
    SelectionIsArchive(Laid(f0), diff, selected);
    FullRestores(ChosenArchive(full, selected), f0);
    TidyRestoresIff(f0, f1, ChosenArchive(diff, selected));
    TidyRestoresIff(e0, e1, diff);
    RestrictMerged(e0, e1, selected);
    UnselectedAreDirs(f0, e1, selected);
  }

  /**
   The same by elements: what the selection asks for comes back as a full restore has it,
   and of anything else no more than a directory.
   */
  lemma SelectiveByElements(e0: Entries, e1: Entries, full: Archive, diff: Archive, selected: seq<string>, p: string)
    requires Walked(e0) && Walked(e1) && Compatible(e0, e1) && selected != []
    requires IsFull(full, e0) && IsDifferential(diff, Manifest(e0), e1) && TidyNames(e0) && TidyNames(e1)
    requires AllPlain(Split(p))
    ensures var base := Restore(map[], full, selected);
      && base.Ok?
      && var r, whole := Restore(base.value, diff, selected), Restore(Laid(e0), diff, []);
      && r.Ok? && whole.Ok?
      && if exists i :: 0 <= i < |selected| && AsksFor(selected[i], Split(p))
         then (p in r.value <==> p in whole.value) && (p in r.value ==> r.value[p] == whole.value[p])
         else p in r.value ==> r.value[p] == DirAt
  {
    hide Laid, Compatible, IsFull, IsDifferential, Restore, Selected, AsksFor, TidyNames, Walked, Split, AllPlain,
      Manifest;
    SelectiveIsRestriction(e0, e1, full, diff, selected);
    SelectedElements(p, selected);
  }

  lemma UnselectedAreDirs(f0: Entries, e1: Entries, selected: seq<string>)
    requires selected != [] && TidyNames(e1)
    ensures forall p :: p in Merged(f0, Restrict(e1, selected)) && !Selected(p, selected) ==>
      Merged(f0, Restrict(e1, selected))[p] == DirAt
  {
    hide Above, Selected, Gone, Wanted, TidyNames;
    TidyWanted(e1, selected);
  }
}
