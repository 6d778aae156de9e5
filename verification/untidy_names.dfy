/**
 * Names that a restore does not leave as they are: which entries come back all the same,
 * when a difference restores, and which deletions take away too much.
 */
module UntidyNames {
  import opened ArchiveNames
  import opened ByteStrings
  import opened DifferentialBackup
  import opened Paths
  import Links

  // ------------------------------------------------------------ extraction of any names

  /** What all these entries lay out, a later file replacing an earlier one. */
  function Parts(items: seq<Item>): Tree {
    if items == [] then map[] else Overlay(Parts(items[..|items| - 1]), OneOf(items[|items| - 1]))
  }

  /** No entry is refused, and no two of them want a file and a directory at the same place. */
  ghost predicate Fit(items: seq<Item>) {
    && (forall i :: 0 <= i < |items| ==> !Refused(items[i]))
    && (forall i, j :: 0 <= i < |items| && 0 <= j < |items| ==> NoClash(OneOf(items[i]), OneOf(items[j])))
  }

  /** Everything in the parts comes from some entry, and nothing an entry lays out changes its kind. */
  ghost predicate Made(items: seq<Item>, t: Tree) {
    && (forall p :: p in t ==> exists item :: item in items && p in OneOf(item) && OneOf(item)[p] == t[p])
    && (forall item, p :: item in items && p in OneOf(item) ==> p in t && SameKind(t[p], OneOf(item)[p]))
  }

  lemma {:induction false} PartsMade(items: seq<Item>)
    requires forall i, j :: 0 <= i < |items| && 0 <= j < |items| ==> NoClash(OneOf(items[i]), OneOf(items[j]))
    ensures Made(items, Parts(items))
  {
    hide OneOf;
    if items != [] {
      var init, last := items[..|items| - 1], items[|items| - 1];
      assert items == init + [last];
      assert forall i :: 0 <= i < |init| ==> init[i] == items[i];
      PartsMade(init);
      MadeSnoc(init, last, Parts(init));
    }
  }

  lemma MadeSnoc(items: seq<Item>, last: Item, t: Tree)
    requires Made(items, t) && forall item :: item in items ==> NoClash(OneOf(item), OneOf(last))
    ensures Made(items + [last], Overlay(t, OneOf(last))) && NoClash(t, OneOf(last))
  {
    hide OneOf;
    var all, u := items + [last], Overlay(t, OneOf(last));
    assert last in all && forall item :: item in items ==> item in all;
    forall p | p in u ensures exists item :: item in all && p in OneOf(item) && OneOf(item)[p] == u[p] {
      if p !in OneOf(last) {
        var item :| item in items && p in OneOf(item) && OneOf(item)[p] == t[p];
        assert item in all;
      }
    }
    forall p | p in t && p in OneOf(last) ensures SameKind(t[p], OneOf(last)[p]) {
      var item :| item in items && p in OneOf(item) && OneOf(item)[p] == t[p];
    }
  }

  /** Entries extract into an empty place exactly if they fit together, whatever their names and their order. */
  lemma {:induction false} ExtractsIffFit(items: seq<Item>)
    ensures Extract(map[], items).Ok? <==> Fit(items)
    ensures Fit(items) ==> Extract(map[], items) == Ok(Parts(items)) && Made(items, Parts(items))
  {
    hide OneOf, Refused, NoClash, Overlay, Put, Made;
    if items == [] {
      PartsMade([]);
    } else {
      var init, last := items[..|items| - 1], items[|items| - 1];
      assert items == init + [last];
      ExtractsIffFit(init);
      FitSnoc(init, last);
      if Fit(init) {
        PutIsOverlay(Parts(init), last);
        PartsClash(init, last);
      }
      if Fit(items) {
        PartsMade(items);
      }
    }
  }

  lemma FitSnoc(items: seq<Item>, last: Item)
    ensures Fit(items + [last])
            <==> Fit(items) && !Refused(last) && forall item :: item in items ==> NoClash(OneOf(item), OneOf(last))
  {
    hide OneOf, Refused;
    var all := items + [last];
    assert forall i :: 0 <= i < |items| ==> all[i] == items[i];
    if Fit(all) {
      forall i | 0 <= i < |items| ensures NoClash(OneOf(items[i]), OneOf(last)) {
        assert NoClash(OneOf(all[i]), OneOf(all[|items|]));
      }
      forall i, j | 0 <= i < |items| && 0 <= j < |items| ensures NoClash(OneOf(items[i]), OneOf(items[j])) {
        assert NoClash(OneOf(all[i]), OneOf(all[j]));
      }
      assert !Refused(all[|items|]);
    }
  }

  lemma PartsClash(items: seq<Item>, last: Item)
    requires Made(items, Parts(items))
    ensures NoClash(Parts(items), OneOf(last)) <==> forall item :: item in items ==> NoClash(OneOf(item), OneOf(last))
  {
    hide OneOf, Parts;
    if forall item :: item in items ==> NoClash(OneOf(item), OneOf(last)) {
      MadeSnoc(items, last, Parts(items));
    }
  }

  /** A file is laid out by the entry that leads to its name. */
  lemma FileLands(item: Item, p: string)
    requires p in OneOf(item) && OneOf(item)[p].FileAt?
    ensures PlaceOf(item.path) == At(p) && item.node.File? && OneOf(item)[p] == FileAt(item.node.content)
  {
    hide PlaceOf;
  }

  /** A file in the result was there before, or an entry led to its name. */
  lemma {:induction false} FilesComeFrom(t: Tree, items: seq<Item>, p: string)
    requires Extract(t, items).Ok? && p in Extract(t, items).value && Extract(t, items).value[p].FileAt?
    ensures (p in t && t[p] == Extract(t, items).value[p])
            || exists item :: item in items && PlaceOf(item.path) == At(p) && item.node.File?
                              && Extract(t, items).value[p] == FileAt(item.node.content)
  {
    hide Put, PlaceOf;
    if items != [] {
      var init, last := items[..|items| - 1], items[|items| - 1];
      assert items == init + [last];
      var u := Extract(t, init).value;
      PutIsOverlay(u, last);
      hide OneOf, Refused;
      if p in OneOf(last) {
        FileLands(last, p);
        assert last in items;
      } else {
        FilesComeFrom(t, init, p);
        if item :| item in init && PlaceOf(item.path) == At(p) && item.node.File? && u[p] == FileAt(item.node.content) {
          assert item in items;
        }
      }
    }
  }

  lemma {:induction false} DeleteOnlyRemoves(t: Tree, paths: seq<string>)
    ensures Delete(t, paths).Ok? ==>
      forall p :: p in Delete(t, paths).value ==> p in t && t[p] == Delete(t, paths).value[p]
  {
    hide PlaceOf;
    if paths != [] {
      DeleteOnlyRemoves(t, paths[..|paths| - 1]);
    }
  }

  lemma {:induction false} IndexedIn(items: seq<Item>, item: Item)
    requires item in items && DistinctPaths(items)
    ensures item.path in Index(items) && Index(items)[item.path] == item.node
  {
    var init, last := items[..|items| - 1], items[|items| - 1];
    assert items == init + [last];
    if item != last {
      DistinctPrefix(items, |init|);
      IndexedIn(init, item);
      LastIsNew(init, last);
      IndexNames(init);
    }
  }

  lemma {:induction false} ListedIn(items: seq<Item>, p: string)
    requires p in Index(items)
    ensures Item(p, Index(items)[p]) in items
  {
    var init, last := items[..|items| - 1], items[|items| - 1];
    if p != last.path {
      ListedIn(init, p);
    }
  }

  /**
   * A file whose name does not stay is not restored by its own entry: if there is a file
   * under that name at all, it was there before or another entry's name led to it.
   */
  lemma UntidyFileLost(t: Tree, a: Archive, e: Entries, p: string)
    requires DistinctPaths(a.items) && Index(a.items) == e && p in e && !Tidy(p)
    requires Restore(t, a, []).Ok? && p in Restore(t, a, []).value && Restore(t, a, []).value[p].FileAt?
    ensures var after := Restore(t, a, []).value;
      || (p in t && t[p] == after[p])
      || exists q :: q in e && q != p && PlaceOf(q) == At(p) && e[q].File? && after[p] == FileAt(e[q].content)
  {
    hide Tidy, PlaceOf, Index, DistinctPaths, Extract, Delete;
    ChosenAll(a.items);
    var u := Extract(t, a.items).value;
    DeleteOnlyRemoves(u, a.deletions);
    FilesComeFrom(t, a.items, p);
    StaysIffTidy(p);
    if item :| item in a.items && PlaceOf(item.path) == At(p) && item.node.File? && u[p] == FileAt(item.node.content) {
      IndexedIn(a.items, item);
    }
  }

  /** No entry leads to the name of a file that does not stay there itself. */
  ghost predicate NoneTakesOver(e: Entries) {
    forall p, q :: p in e && q in e && e[p].File? && PlaceOf(q) == At(p) ==> Tidy(p)
  }

  ghost predicate FilesTidy(e: Entries) {
    forall p :: p in e && e[p].File? ==> Tidy(p)
  }

  /** What a directory's name leads to is no file and not below one. */
  ghost predicate FindsRoom(e: Entries, d: string) {
    && PlaceOf(d) != Outside
    && (PlaceOf(d).At? ==> forall x :: x in Ancestors(PlaceOf(d).name) + {PlaceOf(d).name} && x in e ==> e[x].Dir?)
  }

  /** Some entry leads to this name or below it. */
  ghost predicate LedTo(e: Entries, d: string) {
    exists q :: q in e && PlaceOf(q).At? && d in Ancestors(PlaceOf(q).name) + {PlaceOf(q).name}
  }

  /** Directories whose names do not stay still find room where they lead, and are made by what lies below them. */
  ghost predicate DirsComeBack(e: Entries) {
    forall d :: d in e && e[d].Dir? && !Tidy(d) ==> FindsRoom(e, d) && LedTo(e, d)
  }

  lemma TidyOne(item: Item)
    requires Tidy(item.path)
    ensures PlaceOf(item.path) == At(item.path) && OneOf(item) == One(item) && !Refused(item)
  {
    hide Tidy, PlaceOf;
    TidyStays(item.path);
  }

  lemma AboveIntro(e: Entries, q: string, p: string)
    ensures q in e && p in Ancestors(q) ==> p in Above(e)
  {
    hide Ancestors;
  }

  /** Where a file is laid out, no other entry wants a directory. */
  lemma FileMeetsFile(e: Entries, f: Item, other: Item, p: string)
    requires Consistent(e) && FilesTidy(e) && DirsComeBack(e)
    requires f.path in e && e[f.path] == f.node && other.path in e && e[other.path] == other.node
    requires p in OneOf(f) && OneOf(f)[p].FileAt? && p in OneOf(other)
    ensures OneOf(other)[p].FileAt?
  {
    hide Tidy, PlaceOf, Ancestors, Above, LedTo;
    FileLands(f, p);
    TidyOne(f);
    AboveIntro(e, other.path, p);
    if Tidy(other.path) {
      TidyOne(other);
    }
  }

  /** Two entries clash only if a file of one is where the other wants a directory. */
  lemma NoneClash(e: Entries, f: Item, other: Item)
    requires Consistent(e) && FilesTidy(e) && DirsComeBack(e)
    requires f.path in e && e[f.path] == f.node && other.path in e && e[other.path] == other.node
    ensures NoClash(OneOf(f), OneOf(other))
  {
    hide OneOf, Consistent, FilesTidy, DirsComeBack;
    forall p | p in OneOf(f) && p in OneOf(other) ensures SameKind(OneOf(f)[p], OneOf(other)[p]) {
      if OneOf(f)[p].FileAt? {
        FileMeetsFile(e, f, other, p);
      } else if OneOf(other)[p].FileAt? {
        FileMeetsFile(e, other, f, p);
      }
    }
  }

  /**
   * A full archive restored into an empty place brings every entry back exactly if all its
   * files have names that stay, and its directories either do too or are made anyway.
   */
  lemma FullRestoresIff(a: Archive, e: Entries)
    requires IsFull(a, e) && Consistent(e) && NoneTakesOver(e)
    ensures var r := Restore(map[], a, []);
      r.Ok? && Shows(r.value, e) <==> FilesTidy(e) && DirsComeBack(e)
  {
    hide Tidy, PlaceOf, Index, DistinctPaths, Parts, Made, Fit, FilesTidy, DirsComeBack, NoneTakesOver, Consistent,
      Extract, Shows;
    ChosenAll(a.items);
    ExtractsIffFit(a.items);
    assert Restore(map[], a, []) == Extract(map[], a.items) by { hide Chosen; NothingDeleted(Extract(map[], a.items)); }
    if FilesTidy(e) && DirsComeBack(e) {
      TidyFit(a.items, e);
      FitShows(a.items, e);
    }
    if Fit(a.items) && Shows(Parts(a.items), e) {
      ShownFilesTidy(a.items, e);
      FitDirsComeBack(a.items, e);
    }
  }

  lemma NothingDeleted(r: Result<Tree, string>)
    ensures r.Ok? ==> Delete(r.value, []) == Ok(r.value)
    ensures forall selected :: ChosenPaths([], selected) == []
  {
  }

  lemma TidyFit(items: seq<Item>, e: Entries)
    requires DistinctPaths(items) && Index(items) == e && Consistent(e) && FilesTidy(e) && DirsComeBack(e)
    ensures Fit(items)
  {
    hide Tidy, PlaceOf, DistinctPaths, Index, OneOf, NoClash;
    forall i | 0 <= i < |items| ensures !Refused(items[i]) {
      IndexedIn(items, items[i]);
      if Tidy(items[i].path) {
        TidyOne(items[i]);
      } else {
        assert FindsRoom(e, items[i].path);
      }
    }
    forall i, j | 0 <= i < |items| && 0 <= j < |items| ensures NoClash(OneOf(items[i]), OneOf(items[j])) {
      IndexedIn(items, items[i]);
      IndexedIn(items, items[j]);
      NoneClash(e, items[i], items[j]);
    }
  }

  /** Every entry's name is laid out, as what it is. */
  lemma EntryLaid(items: seq<Item>, e: Entries, p: string)
    requires DistinctPaths(items) && Index(items) == e && FilesTidy(e) && DirsComeBack(e) && Made(items, Parts(items))
        && p in e
    ensures p in Parts(items) && SameKind(Parts(items)[p], Laid1(e[p]))
  {
    hide Tidy, PlaceOf, DistinctPaths, Index, Parts, FindsRoom, OneOf;
    var item := Item(p, e[p]);
    ListedIn(items, p);
    if Tidy(p) {
      TidyOne(item);
      NotOwnAncestor(p);
    } else {
      assert LedTo(e, p);
      var q :| q in e && PlaceOf(q).At? && p in Ancestors(PlaceOf(q).name) + {PlaceOf(q).name};
      ListedIn(items, q);
      LedToIsLaid(e, q, p);
    }
  }

  lemma LedToIsLaid(e: Entries, q: string, p: string)
    requires FilesTidy(e) && q in e && PlaceOf(q).At? && p in Ancestors(PlaceOf(q).name) + {PlaceOf(q).name}
    requires p in e && e[p].Dir?
    ensures p in OneOf(Item(q, e[q])) && OneOf(Item(q, e[q]))[p] == DirAt
  {
    hide Tidy, PlaceOf, Ancestors;
    if e[q].File? {
      TidyOne(Item(q, e[q]));
    }
  }

  lemma FitShows(items: seq<Item>, e: Entries)
    requires DistinctPaths(items) && Index(items) == e && FilesTidy(e) && DirsComeBack(e) && Made(items, Parts(items))
    ensures Shows(Parts(items), e)
  {
    hide Tidy, PlaceOf, DistinctPaths, Index, Parts, OneOf, DirsComeBack;
    var t := Parts(items);
    forall p | p in e ensures p in t && t[p] == Laid1(e[p]) {
      EntryLaid(items, e, p);
      if t[p].FileAt? {
        var other :| other in items && p in OneOf(other) && OneOf(other)[p] == t[p];
        IndexedIn(items, other);
        FileLands(other, p);
        TidyOne(other);
      }
    }
  }

  lemma ShownFilesTidy(items: seq<Item>, e: Entries)
    requires DistinctPaths(items) && Index(items) == e && NoneTakesOver(e) && Made(items, Parts(items))
        && Shows(Parts(items), e)
    ensures FilesTidy(e)
  {
    hide Tidy, PlaceOf, DistinctPaths, Index, Parts, OneOf;
    var t := Parts(items);
    forall p | p in e && e[p].File? ensures Tidy(p) {
      assert t[p] == Laid1(e[p]);
      var item :| item in items && p in OneOf(item) && OneOf(item)[p] == t[p];
      IndexedIn(items, item);
      FileLands(item, p);
    }
  }

  lemma PairFits(items: seq<Item>, a: Item, b: Item)
    requires Fit(items) && a in items && b in items
    ensures NoClash(OneOf(a), OneOf(b)) && !Refused(a)
  {
    hide OneOf, NoClash, Refused;
    var i, j :| 0 <= i < |items| && 0 <= j < |items| && items[i] == a && items[j] == b;
  }

  lemma FitDirsComeBack(items: seq<Item>, e: Entries)
    requires DistinctPaths(items) && Index(items) == e && FilesTidy(e) && Fit(items)
    requires Made(items, Parts(items)) && Shows(Parts(items), e)
    ensures DirsComeBack(e)
  {
    hide Tidy, FindsRoom, LedTo, FilesTidy, Fit, Made, Shows, DistinctPaths, Index;
    forall d | d in e && e[d].Dir? && !Tidy(d) ensures FindsRoom(e, d) && LedTo(e, d) {
      RoomFound(items, e, d);
      ShownIsLedTo(items, e, d);
    }
  }

  lemma ShownIsLedTo(items: seq<Item>, e: Entries, d: string)
    requires DistinctPaths(items) && Index(items) == e && d in e && Made(items, Parts(items)) && Shows(Parts(items), e)
    ensures LedTo(e, d)
  {
    hide PlaceOf, DistinctPaths, Index, Parts, Ancestors;
    var t := Parts(items);
    var other :| other in items && d in OneOf(other) && OneOf(other)[d] == t[d];
    IndexedIn(items, other);
    assert PlaceOf(other.path).At?;
  }

  lemma FileSpot(f: Item)
    ensures Tidy(f.path) && f.node.File? ==> f.path in OneOf(f) && OneOf(f)[f.path].FileAt?
  {
    hide Tidy, PlaceOf;
    if Tidy(f.path) {
      TidyOne(f);
    }
  }

  lemma DirSpot(item: Item, x: string)
    requires PlaceOf(item.path).At? && x in Ancestors(PlaceOf(item.path).name) + {PlaceOf(item.path).name}
    ensures item.node.Dir? ==> x in OneOf(item) && OneOf(item)[x].DirAt?
  {
    hide PlaceOf, Ancestors;
  }

  lemma RoomFound(items: seq<Item>, e: Entries, d: string)
    requires DistinctPaths(items) && Index(items) == e && FilesTidy(e) && Fit(items) && d in e && e[d].Dir?
    ensures FindsRoom(e, d)
  {
    hide Tidy, PlaceOf, DistinctPaths, Index, Ancestors, Fit, OneOf;
    ListedIn(items, d);
    var item := Item(d, e[d]);
    PairFits(items, item, item);
    if PlaceOf(d).At? {
      forall x | x in Ancestors(PlaceOf(d).name) + {PlaceOf(d).name} && x in e ensures e[x].Dir? {
        ListedIn(items, x);
        PairFits(items, Item(x, e[x]), item);
        FileSpot(Item(x, e[x]));
        DirSpot(item, x);
      }
    }
  }

  // ------------------------------------------------------------ the difference

  ghost predicate DirsTidy(e: Entries) {
    forall d :: d in e && e[d].Dir? ==> Tidy(d)
  }

  /** A current file that comes back has a name that stays. */
  lemma ShownIsTidy(e0: Entries, e1: Entries, diff: Archive, p: string)
    requires Consistent(e0) && IsDifferential(diff, Manifest(e0), e1) && TidyNames(e0) && NoneTakesOver(e1)
    requires Restore(Laid(e0), diff, []).Ok? && Shows(Restore(Laid(e0), diff, []).value, e1)
    requires p in e1 && e1[p].File?
    ensures Tidy(p)
  {
    hide Tidy, PlaceOf, Restore, Ancestors, DistinctPaths, Index;
    var after := Restore(Laid(e0), diff, []).value;
    assert p in after && after[p].FileAt?;
    if !Tidy(p) {
      assert p !in e0;
      UntidyFileLost(Laid(e0), diff, Difference(Manifest(e0), e1), p);
    }
  }

  /**
   * Restoring the full archive and then the differential one brings every current entry
   * back exactly if the two states are compatible and all current names stay; then the
   * result is the current tree, apart from directories above base entries that were never
   * archived themselves.
   */
  lemma DifferentialRestoresIff(e0: Entries, e1: Entries, full: Archive, diff: Archive)
    requires Consistent(e0) && Consistent(e1) && IsFull(full, e0) && IsDifferential(diff, Manifest(e0), e1)
    requires TidyNames(e0) && DirsTidy(e1) && NoneTakesOver(e1)
    ensures Restore(map[], full, []) == Ok(Laid(e0))
    ensures var r := Restore(Laid(e0), diff, []);
      && (Compatible(e0, e1) && TidyNames(e1) <==> r.Ok? && Shows(r.value, e1))
      && (Compatible(e0, e1) && TidyNames(e1) ==> r == Ok(Merged(e0, e1)))
  {
    hide Laid, Consistent, Merged, Compatible, IsFull, IsDifferential, Restore, Tidy, NoneTakesOver, Shows;
    FullRestores(full, e0);
    var r := Restore(Laid(e0), diff, []);
    if r.Ok? && Shows(r.value, e1) {
      forall p | p in e1 ensures Tidy(p) {
        if e1[p].File? { ShownIsTidy(e0, e1, diff, p); }
      }
    }
    if TidyNames(e1) {
      TidyRestoresIff(e0, e1, diff);
    }
  }

  // ------------------------------------------------------------ deletions that hit

  /** A deletion takes this name away. */
  predicate Hits(raw: string, p: string) {
    match PlaceOf(raw)
    case Top => true
    case At(x) => p == x || Below(p, x)
    case _ => false
  }

  lemma HitsIff(e: Entries, raw: string)
    ensures (forall p :: p in e ==> !Hits(raw, p))
            <==> match PlaceOf(raw) case Top => e == map[] case At(y) => y !in Laid(e) case _ => true
  {
    hide PlaceOf, Below;
    PlaceHasName(raw);
    match PlaceOf(raw) {
      case Top => assert (forall p :: p !in e) ==> e == map[];
      case At(y) =>
        if y in Laid(e) && y !in e {
          var p :| p in e && y in Ancestors(p);
          assert Hits(raw, p);
        }
        forall p | p in e && Below(p, y) ensures y in Above(e) {
          AboveIntro(e, p, y);
        }
      case _ =>
    }
  }

  /** No deletion hits a current entry exactly if none leads to one, or to a directory above one. */
  lemma DeletionsMissIff(e0: Entries, e1: Entries)
    ensures (forall x, p :: x in e0.Keys - e1.Keys && p in e1 ==> !Hits(x, p))
            <==> forall x :: x in e0.Keys - e1.Keys ==>
                   match PlaceOf(x) case Top => e1 == map[] case At(y) => y !in Laid(e1) case _ => true
  {
    hide PlaceOf, Ancestors, Below;
    forall x | x in e0.Keys - e1.Keys
      ensures (forall p :: p in e1 ==> !Hits(x, p))
              <==> match PlaceOf(x) case Top => e1 == map[] case At(y) => y !in Laid(e1) case _ => true
    {
      HitsIff(e1, x);
    }
  }

  // ------------------------------------------------------------ one that does

  const NOTE: string := "src/note"
  const NOTE_AND_BLANK: string := "src/note "

  lemma NoteNames()
    ensures PlaceOf(NOTE) == At(NOTE) && PlaceOf(NOTE_AND_BLANK) == At(NOTE)
    ensures Ancestors(NOTE) == Ancestors(NOTE_AND_BLANK) == {"src"}
  {
    hide Links.Split, Links.Clean, Trim;
    NoteTrims();
    NoteSplits();
    TidyStays(NOTE);
    NoteAncestors();
  }

  lemma NoteTrims()
    ensures Trim(NOTE) == NOTE && Trim(NOTE_AND_BLANK) == NOTE
  {
    assert NOTE_AND_BLANK[..|NOTE_AND_BLANK| - 1] == NOTE;
    assert TrimRight(NOTE) == NOTE;
  }

  lemma NoteSplits()
    ensures Links.AllPlain(Links.Split(NOTE))
  {
    hide Links.Split;
    Links.SplitHead("src", "note");
    Links.SplitHead("note", "");
    assert NOTE == "src" + "/" + "note";
  }

  lemma NoteAncestors()
    ensures Ancestors(NOTE) == Ancestors(NOTE_AND_BLANK) == {"src"}
  {
    assert forall i :: 0 < i < |NOTE_AND_BLANK| && NOTE_AND_BLANK[i] == '/' ==> i == 3;
    assert forall i :: 0 < i < |NOTE| && NOTE[i] == '/' ==> i == 3;
    assert NOTE[..3] == NOTE_AND_BLANK[..3] == "src";
    forall d ensures d in Ancestors(NOTE) <==> d == "src" {
      if d in Ancestors(NOTE) { assert NOTE[|d|] == (d + "/")[|d|] && NOTE[..|d|] == d; }
      assert "src" + "/" <= NOTE;
    }
    forall d ensures d in Ancestors(NOTE_AND_BLANK) <==> d == "src" {
      if d in Ancestors(NOTE_AND_BLANK) { assert NOTE_AND_BLANK[|d|] == (d + "/")[|d|] && NOTE_AND_BLANK[..|d|] == d; }
      assert "src" + "/" <= NOTE_AND_BLANK;
    }
  }

  function NoteBase(b: Node): Tree
    requires b.File?
  {
    map["src" := DirAt, NOTE := FileAt(b.content)]
  }

  function NoteFull(a: Node, b: Node): Archive {
    Archive([Item(NOTE, a), Item(NOTE_AND_BLANK, b)], [])
  }

  function NoteDifferential(): Archive {
    Archive([], [NOTE_AND_BLANK])
  }

  lemma NoteArchives(a: Node, b: Node)
    ensures IsFull(NoteFull(a, b), map[NOTE := a, NOTE_AND_BLANK := b])
    ensures IsDifferential(NoteDifferential(), Manifest(map[NOTE := a, NOTE_AND_BLANK := b]), map[NOTE := a])
  {
    assert |NOTE| != |NOTE_AND_BLANK|;
    var first, second := Item(NOTE, a), Item(NOTE_AND_BLANK, b);
    assert [first, second][..1] == [first] && [first][..0] == [];
    assert Index([first]) == map[NOTE := a];
  }

  lemma NoteRestored(a: Node, b: Node)
    requires a.File? && b.File?
    ensures Restore(map[], NoteFull(a, b), []) == Ok(NoteBase(b))
  {
    hide PlaceOf, Ancestors, CleanName, Put, Overlay, NoClash;
    NoteNames();
    var first, second := Item(NOTE, a), Item(NOTE_AND_BLANK, b);
    ChosenAll([first, second]);
    assert [first, second][..1] == [first] && [first][..0] == [];
    NoteLaid(first);
    NoteLaid(second);
    PutIsOverlay(map[], first);
    PutIsOverlay(NoteBase(a), second);
    NoteOver(a, b);
    assert Extract(map[], []) == Ok(map[]);
    assert Extract(map[], [first]) == Ok(NoteBase(a));
  }

  lemma NoteLaid(item: Item)
    requires item.path in [NOTE, NOTE_AND_BLANK] && item.node.File?
    ensures OneOf(item) == NoteBase(item.node) && !Refused(item)
  {
    hide PlaceOf, Ancestors;
    NoteNames();
    assert |NOTE| != |"src"|;
  }

  lemma NoteOver(a: Node, b: Node)
    requires a.File? && b.File?
    ensures NoClash(map[], NoteBase(a)) && Overlay(map[], NoteBase(a)) == NoteBase(a)
    ensures NoClash(NoteBase(a), NoteBase(b)) && Overlay(NoteBase(a), NoteBase(b)) == NoteBase(b)
  {
    assert |NOTE| != |"src"|;
  }

  lemma NoteDeleted(b: Node)
    requires b.File?
    ensures Restore(NoteBase(b), NoteDifferential(), []) == Ok(map["src" := DirAt])
  {
    hide PlaceOf, Ancestors;
    NoteNames();
    assert |NOTE| != |"src"| && |NOTE + "/"| > |"src"|;
    assert [NOTE_AND_BLANK][..0] == [];
    var t := NoteBase(b);
    assert t["src"] == DirAt && !Below("src", NOTE);
    assert Remove(t, NOTE).Ok?;
    assert Remove(t, NOTE).value.Keys == {"src"};
    assert "src" in Remove(t, NOTE).value && Remove(t, NOTE).value["src"] == DirAt;
    assert Remove(t, NOTE).value == map["src" := DirAt];
    assert Extract(t, Chosen(NoteDifferential().items, [])) == Ok(t);
    assert Delete(t, [NOTE_AND_BLANK][..0]) == Ok(t);
    assert Delete(t, [NOTE_AND_BLANK]) == RemoveAll(t, NOTE_AND_BLANK);
  }

  /**
   * The failure: a source holds "note" and "note ". The full restore writes both to the
   * same file. Once "note " is gone, its deletion removes the current "note".
   */
  lemma TrimmedDeletionRemovesCurrent(a: Node, b: Node)
    requires a.File? && b.File?
    ensures var e0: Entries := map[NOTE := a, NOTE_AND_BLANK := b];
      var e1: Entries := map[NOTE := a];
      && IsFull(NoteFull(a, b), e0) && IsDifferential(NoteDifferential(), Manifest(e0), e1)
      && Restore(map[], NoteFull(a, b), []) == Ok(map["src" := DirAt, NOTE := FileAt(b.content)])
      && Restore(map["src" := DirAt, NOTE := FileAt(b.content)], NoteDifferential(), []) == Ok(map["src" := DirAt])
  {
    hide IsFull, IsDifferential, Restore;
    NoteArchives(a, b);
    NoteRestored(a, b);
    NoteDeleted(b);
  }
}
