/** What a restore makes of the names in an archive: trimmed, cleaned, and placed below its target. */
module ArchiveNames {
  import opened Links

  // ------------------------------------------------------------ trimming

  /** White space as Unicode has it. */
  predicate Blank(ch: char) {
    || ch in ['\t', '\n', '\U{B}', '\U{C}', '\r', ' ', '\U{85}', '\U{A0}', '\U{1680}', '\U{2028}', '\U{2029}',
              '\U{202F}', '\U{205F}', '\U{3000}']
    || '\U{2000}' <= ch <= '\U{200A}'
  }

  function TrimRight(s: string): (r: string)
    ensures |r| <= |s| && (|r| == |s| ==> r == s)
  {
    if s != "" && Blank(s[|s| - 1]) then TrimRight(s[..|s| - 1]) else s
  }

  function Trim(s: string): (r: string)
    ensures |r| <= |s| && (|r| == |s| ==> r == s)
  {
    if s != "" && Blank(s[0]) then Trim(s[1..]) else TrimRight(s)
  }

  /** White space, by the code points of the property White_Space. */
  predicate WhiteSpace(ch: char) {
    var n := ch as int;
    9 <= n <= 13 || 8192 <= n <= 8202 || n in {32, 133, 160, 5760, 8232, 8233, 8239, 8287, 12288}
  }

  predicate AllBlank(s: string) {
    forall i :: 0 <= i < |s| ==> WhiteSpace(s[i])
  }

  lemma BlankByCode(ch: char)
    ensures Blank(ch) <==> WhiteSpace(ch)
  {
    var n := ch as int;
    assert ch == '\t' <==> n == 9;
  }

  /** Only white space is trimmed, and none is left at either end. */
  lemma {:induction false} TrimmedExactly(s: string) returns (before: string, after: string)
    ensures s == before + Trim(s) + after && AllBlank(before) && AllBlank(after)
    ensures Trim(s) != "" ==> !WhiteSpace(Trim(s)[0]) && !WhiteSpace(Trim(s)[|Trim(s)| - 1])
  {
    hide TrimRight, Blank, WhiteSpace;
    if s != "" { BlankByCode(s[0]); }
    if s != "" && Blank(s[0]) {
      before, after := TrimmedExactly(s[1..]);
      assert s == [s[0]] + (before + Trim(s[1..]) + after) == [s[0]] + before + Trim(s[1..]) + after;
      before := [s[0]] + before;
    } else {
      before := "";
      after := TrimmedRight(s);
    }
  }

  lemma {:induction false} TrimmedRight(s: string) returns (after: string)
    ensures s == TrimRight(s) + after && AllBlank(after)
    ensures TrimRight(s) != "" ==> !WhiteSpace(TrimRight(s)[|TrimRight(s)| - 1])
  {
    hide Blank, WhiteSpace;
    if s != "" { BlankByCode(s[|s| - 1]); }
    if s != "" && Blank(s[|s| - 1]) {
      var init := s[..|s| - 1];
      after := TrimmedRight(init);
      assert s == TrimRight(init) + after + [s[|s| - 1]] == TrimRight(init) + (after + [s[|s| - 1]]);
      after := after + [s[|s| - 1]];
    } else {
      after := "";
    }
  }

  // ------------------------------------------------------------ cleaning

  predicate Rooted(s: string) {
    s != "" && s[0] == '/'
  }

  /** From the root no ".." leads further up. */
  function WithoutUps(at: seq<string>): seq<string> {
    if Escapes(at) then WithoutUps(at[1..]) else at
  }

  /** `path.Clean`. */
  function PathClean(s: string): string {
    var parts := if Rooted(s) then WithoutUps(Clean(Split(s))) else Clean(Split(s));
    (if Rooted(s) then "/" else "") + if parts != [] then Joined(parts) else if Rooted(s) then "" else "."
  }

  /** The name an archive entry, a deletion or a selection is taken for. */
  function CleanName(raw: string): string {
    PathClean(Trim(raw))
  }

  /** Nowhere, out of the restore target, the target itself, or a name below it. */
  datatype Place = Skipped | Outside | Top | At(name: string)

  function PlaceOf(raw: string): Place {
    var s := Trim(raw);
    var parts := Clean(Split(s));
    if Rooted(s) then if WithoutUps(parts) == [] then Top else At(Joined(WithoutUps(parts)))
    else if parts == [] then Skipped
    else if Escapes(parts) then Outside
    else At(Joined(parts))
  }

  // ------------------------------------------------------------ names that stay

  /** No white space at either end, and no element that cleaning drops. */
  predicate Tidy(name: string) {
    Trim(name) == name && AllPlain(Split(name))
  }

  /** The length of a spelling and a slash. */
  function Size(parts: seq<string>): nat {
    if parts == [] then 0 else |parts[0]| + 1 + Size(parts[1..])
  }

  lemma {:induction false} SizeSnoc(parts: seq<string>, last: string)
    ensures Size(parts + [last]) == Size(parts) + |last| + 1
  {
    if parts == [] {
      assert (parts + [last])[1..] == [];
    } else {
      SizeSnoc(parts[1..], last);
      assert (parts + [last])[1..] == parts[1..] + [last];
    }
  }

  lemma {:induction false} SplitSize(s: string)
    ensures Size(Split(s)) == |s| + 1
  {
    if s != "" {
      var rest := Split(s[1..]);
      SplitSize(s[1..]);
      assert s[0] == '/' ==> ([""] + rest)[1..] == rest;
      assert s[0] != '/' ==> ([[s[0]] + rest[0]] + rest[1..])[1..] == rest[1..];
    } else {
      assert [""][1..] == [];
    }
  }

  lemma {:induction false} JoinedSize(parts: seq<string>)
    requires parts != []
    ensures Size(parts) == |Joined(parts)| + 1
  {
    if |parts| == 1 {
      assert parts[1..] == [];
    } else {
      JoinedSize(parts[1..]);
    }
  }

  lemma StepSize(at: seq<string>, part: string)
    ensures Size(Stepped(at, part)) <= Size(at) + |part| + 1
  {
    if part == ".." && at != [] && at[|at| - 1] != ".." {
      SizeSnoc(at[..|at| - 1], at[|at| - 1]);
      assert at == at[..|at| - 1] + [at[|at| - 1]];
    } else {
      SizeSnoc(at, part);
    }
  }

  lemma {:induction false} CleanSize(parts: seq<string>)
    ensures Size(Clean(parts)) <= Size(parts)
  {
    if parts != [] {
      var front, last := parts[..|parts| - 1], parts[|parts| - 1];
      CleanSize(front);
      StepSize(Clean(front), last);
      SizeSnoc(front, last);
      assert parts == front + [last];
    }
  }

  /** Cleaning leaves no empty element and no dot. */
  predicate NoDots(parts: seq<string>) {
    forall i :: 0 <= i < |parts| ==> parts[i] != "" && parts[i] != "."
  }

  lemma {:induction false} CleanNoDots(parts: seq<string>)
    ensures NoDots(Clean(parts))
  {
    if parts != [] {
      CleanNoDots(parts[..|parts| - 1]);
    }
  }

  lemma {:induction false} WithoutUpsFacts(at: seq<string>)
    requires NoDots(at) && Free('/', at)
    ensures NoDots(WithoutUps(at)) && Free('/', WithoutUps(at)) && Size(WithoutUps(at)) <= Size(at)
    ensures !Escapes(WithoutUps(at))
  {
    if Escapes(at) {
      WithoutUpsFacts(at[1..]);
    }
  }

  lemma RootedStartsEmpty(s: string)
    ensures Rooted(s) ==> Split(s)[0] == ""
  {
  }

  lemma PlaceHasName(raw: string)
    ensures PlaceOf(raw) != At("")
  {
    hide Split, Clean, Trim, WithoutUps;
    var parts := Clean(Split(Trim(raw)));
    CleanedElements(Trim(raw));
    WithoutUpsFacts(parts);
  }

  lemma TidyStays(name: string)
    requires Tidy(name)
    ensures PlaceOf(name) == At(name) && CleanName(name) == name
  {
    hide Split, Clean, Joined, Trim;
    RootedStartsEmpty(name);
    CleanOfPlain(Split(name));
    JoinedSplit(name);
    assert Plain(Split(name)[0]);
  }

  /** What a name is cleaned to, in elements. */
  lemma CleanedElements(s: string)
    ensures var parts := Clean(Split(s)); NoDots(parts) && Free('/', parts) && Size(parts) <= |s| + 1
  {
    hide Split, Clean;
    CleanNoDots(Split(s));
    CleanFree('/', Split(s));
    CleanSize(Split(s));
    SplitSize(s);
  }

  /** A name stays where it is exactly if it is tidy. */
  lemma StaysIffTidy(name: string)
    ensures PlaceOf(name) == At(name) <==> Tidy(name)
  {
    if Tidy(name) {
      TidyStays(name);
    }
    if PlaceOf(name) == At(name) {
      StayedIsTidy(name);
    }
  }

  lemma StayedIsTidy(name: string)
    requires PlaceOf(name) == At(name)
    ensures Tidy(name)
  {
    hide Split, Clean, Joined, Trim, WithoutUps, Size;
    var s := Trim(name);
    var parts := Clean(Split(s));
    CleanedElements(s);
    WithoutUpsFacts(parts);
    var kept := if Rooted(s) then WithoutUps(parts) else parts;
    JoinedSize(kept);
    assert s == name;
    SplitJoined(kept);
    if Rooted(s) {
      RootedStartsEmpty(name);
    } else {
      CleanIsPlain(Split(s));
    }
  }
}
