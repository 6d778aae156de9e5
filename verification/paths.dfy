/** Slash-separated archive names. */
module Paths {
  import opened ArchiveNames
  import opened Links

  /** `p` lies strictly below `dir`. */
  predicate Below(p: string, dir: string) {
    dir + "/" <= p
  }

  /** The directories a name passes through, outermost first in length. */
  function Ancestors(p: string): (dirs: set<string>)
    ensures forall d :: d in dirs <==> Below(p, d) && d != ""
  {
    var dirs := set i | 0 < i < |p| && p[i] == '/' :: p[..i];
    assert forall d :: Below(p, d) && d != "" ==> d in dirs by {
      forall d | Below(p, d) && d != "" ensures d in dirs {
        assert p[|d|] == (d + "/")[|d|] == '/' && p[..|d|] == d;
      }
    }
    assert forall d :: d in dirs ==> Below(p, d) && d != "" by {
      forall d | d in dirs ensures Below(p, d) && d != "" {
        var i :| 0 < i < |p| && p[i] == '/' && d == p[..i];
        assert p[..i + 1] == d + "/";
      }
    }
    dirs
  }

  lemma BelowTransitive(p: string, q: string, r: string)
    requires Below(p, q) && Below(q, r)
    ensures Below(p, r)
  {
    assert p[..|r| + 1] == (q + "/")[..|r| + 1] == q[..|r| + 1];
  }

  /** One selection entry, trimmed and cleaned; one that comes to nothing selects nothing. */
  predicate SelectedBy(name: string, sel: string) {
    var clean := CleanName(sel);
    clean != "" && clean != "." && (name == clean || Below(name, clean))
  }

  /** `name` was selected, or lies below something selected. */
  predicate Selected(name: string, selected: seq<string>) {
    exists i :: 0 <= i < |selected| && SelectedBy(name, selected[i])
  }

  /** What a selection entry asks for, in elements; nothing if it is blank, rooted or only dots. */
  predicate AsksFor(sel: string, elements: seq<string>) {
    var clean := Clean(Split(Trim(sel)));
    (Trim(sel) == "" || Trim(sel)[0] != '/') && clean != [] && clean <= elements
  }

  /** A selection entry selects a name exactly if its cleaned elements are the first elements of the name. */
  lemma SelectedByElements(name: string, sel: string)
    requires AllPlain(Split(name))
    ensures SelectedBy(name, sel) <==> AsksFor(sel, Split(name))
  {
    hide Split, Clean, Trim, Joined;
    var s := Trim(sel);
    var parts := Clean(Split(s));
    RootedStartsEmpty(name);
    CleanFree('/', Split(s));
    CleanedElements(s);
    if Rooted(s) {
      assert CleanName(sel)[0] == '/';
    } else if parts != [] {
      SpelledNotDots(parts);
      BelowByElements(name, parts);
    }
  }

  lemma SpelledNotDots(parts: seq<string>)
    requires parts != [] && NoDots(parts) && Free('/', parts)
    ensures Joined(parts) != "" && Joined(parts) != "."
  {
    if |parts| == 1 {
    } else {
      assert parts[0] != "";
      assert Joined(parts)[|parts[0]|] == '/';
    }
  }

  /** The selection of a plain name, by elements alone. */
  lemma SelectedElements(name: string, selected: seq<string>)
    requires AllPlain(Split(name))
    ensures Selected(name, selected) <==> exists i :: 0 <= i < |selected| && AsksFor(selected[i], Split(name))
  {
    hide SelectedBy, AsksFor, Split;
    forall i | 0 <= i < |selected| ensures SelectedBy(name, selected[i]) <==> AsksFor(selected[i], Split(name)) {
      SelectedByElements(name, selected[i]);
    }
  }

  /** The name in an archive or among deletions leads to these elements below the target. */
  predicate LeadsTo(raw: string, elements: seq<string>) {
    && Trim(raw) != "" && Trim(raw)[0] != '/'
    && elements == Clean(Split(Trim(raw))) && elements != [] && AllPlain(elements)
  }

  /** The selection of an archived name, by the elements it leads to. */
  lemma SelectedWhereItLeads(raw: string, elements: seq<string>, selected: seq<string>)
    requires LeadsTo(raw, elements)
    ensures Selected(CleanName(raw), selected) <==> exists i :: 0 <= i < |selected| && AsksFor(selected[i], elements)
  {
    hide Selected, AsksFor, Split, Clean, Trim, Plain;
    CleanFree('/', Split(Trim(raw)));
    SplitJoined(elements);
    assert CleanName(raw) == Joined(elements);
    SelectedElements(CleanName(raw), selected);
  }

  lemma TidyLeads(name: string)
    requires Tidy(name)
    ensures LeadsTo(name, Split(name))
  {
    hide Split, Clean, Trim;
    CleanOfPlain(Split(name));
    RootedStartsEmpty(name);
    assert Plain(Split(name)[0]);
    JoinedSplit(name);
  }

  /** The directories above a name, by elements. */
  lemma AncestorsByElements(name: string, dir: string)
    requires AllPlain(Split(name))
    ensures dir in Ancestors(name) <==> Split(dir) < Split(name)
  {
    hide Split, Ancestors;
    JoinedSplit(dir);
    BelowByElements(name, Split(dir));
    EmptyAbove(name);
  }

  lemma EmptyAbove(name: string)
    requires AllPlain(Split(name))
    ensures !(Split("") < Split(name))
  {
    assert Split("")[0] == "" && Plain(Split(name)[0]);
  }

  lemma SelectedDownwards(p: string, q: string, selected: seq<string>)
    requires Selected(q, selected) && Below(p, q)
    ensures Selected(p, selected)
  {
    hide CleanName;
    var i :| 0 <= i < |selected| && SelectedBy(q, selected[i]);
    if q != CleanName(selected[i]) {
      BelowTransitive(p, q, CleanName(selected[i]));
    }
    assert SelectedBy(p, selected[i]);
  }
}
