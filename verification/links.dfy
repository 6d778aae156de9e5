/** Link targets: where they lead, which are refused, and how a restore spells them anew. */
module Links {
  // ------------------------------------------------------------ names and their elements

  /** The elements between the slashes of a name. */
  function Split(s: string): (parts: seq<string>)
    ensures parts != [] && forall i :: 0 <= i < |parts| ==> '/' !in parts[i]
  {
    if s == "" then [""]
    else
      var rest := Split(s[1..]);
      if s[0] == '/' then [""] + rest else [[s[0]] + rest[0]] + rest[1..]
  }

  function Joined(parts: seq<string>): string
    requires parts != []
  {
    if |parts| == 1 then parts[0] else parts[0] + "/" + Joined(parts[1..])
  }

  lemma {:induction false} SplitHead(a: string, s: string)
    requires '/' !in a
    ensures Split(a) == [a] && Split(a + "/" + s) == [a] + Split(s)
  {
    if a == "" {
      assert (a + "/" + s)[1..] == s;
    } else {
      SplitHead(a[1..], s);
      assert (a + "/" + s)[1..] == a[1..] + "/" + s;
      assert [a[0]] + a[1..] == a;
    }
  }

  lemma {:induction false} SplitJoined(parts: seq<string>)
    requires parts != [] && forall i :: 0 <= i < |parts| ==> '/' !in parts[i]
    ensures Split(Joined(parts)) == parts
  {
    if |parts| == 1 {
      SplitHead(parts[0], "");
    } else {
      SplitJoined(parts[1..]);
      SplitHead(parts[0], Joined(parts[1..]));
    }
  }

  lemma FirstLonger(ch: char, parts: seq<string>)
    requires parts != []
    ensures Joined([[ch] + parts[0]] + parts[1..]) == [ch] + Joined(parts)
  {
    var longer := [[ch] + parts[0]] + parts[1..];
    assert longer[1..] == parts[1..];
    if |parts| > 1 {
      assert [ch] + parts[0] + "/" + Joined(parts[1..]) == [ch] + (parts[0] + "/" + Joined(parts[1..]));
    }
  }

  lemma {:induction false} JoinedSplit(s: string)
    ensures Joined(Split(s)) == s
  {
    if s != "" {
      var rest := Split(s[1..]);
      JoinedSplit(s[1..]);
      assert s == [s[0]] + s[1..];
      if s[0] == '/' {
        assert ([""] + rest)[1..] == rest;
      } else {
        FirstLonger(s[0], rest);
      }
    }
  }

  /** What follows a slash is split on its own. */
  lemma {:induction false} SplitAppend(parts: seq<string>, s: string)
    requires parts != [] && forall i :: 0 <= i < |parts| ==> '/' !in parts[i]
    ensures Split(Joined(parts) + "/" + s) == parts + Split(s)
  {
    hide Split;
    if |parts| == 1 {
      SplitHead(parts[0], s);
    } else {
      var rest := Joined(parts[1..]) + "/" + s;
      SplitAppend(parts[1..], s);
      SplitHead(parts[0], rest);
      assert Joined(parts) + "/" + s == parts[0] + "/" + rest;
      assert parts == [parts[0]] + parts[1..];
    }
  }

  lemma {:induction false} JoinedAppend(parts: seq<string>, more: seq<string>)
    requires parts != [] && more != []
    ensures Joined(parts + more) == Joined(parts) + "/" + Joined(more)
  {
    if |parts| == 1 {
      assert (parts + more)[1..] == more;
    } else {
      JoinedAppend(parts[1..], more);
      assert (parts + more)[1..] == parts[1..] + more;
    }
  }

  /** A name is another one or lies below it exactly if it begins with that one's elements. */
  lemma BelowByElements(name: string, parts: seq<string>)
    requires parts != [] && forall i :: 0 <= i < |parts| ==> '/' !in parts[i]
    ensures name == Joined(parts) <==> parts == Split(name)
    ensures Joined(parts) + "/" <= name <==> parts < Split(name)
  {
    hide Split, Joined;
    JoinedSplit(name);
    SplitJoined(parts);
    if Joined(parts) + "/" <= name {
      var rest := name[|Joined(parts)| + 1..];
      assert name == Joined(parts) + "/" + rest;
      SplitAppend(parts, rest);
    }
    if parts < Split(name) {
      var more := Split(name)[|parts|..];
      assert Split(name) == parts + more;
      JoinedAppend(parts, more);
    }
  }

  predicate Free(ch: char, parts: seq<string>) {
    forall i :: 0 <= i < |parts| ==> ch !in parts[i]
  }

  lemma {:induction false} SplitFree(ch: char, s: string)
    requires ch !in s
    ensures Free(ch, Split(s))
  {
    if s != "" {
      SplitFree(ch, s[1..]);
    }
  }

  lemma {:induction false} JoinedFree(ch: char, parts: seq<string>)
    requires parts != [] && Free(ch, parts) && ch != '/'
    ensures ch !in Joined(parts)
  {
    if |parts| > 1 {
      JoinedFree(ch, parts[1..]);
    }
  }

  // ------------------------------------------------------------ cleaning

  /** An element that names something. */
  predicate Plain(part: string) {
    part !in ["", ".", ".."]
  }

  predicate AllPlain(parts: seq<string>) {
    forall i :: 0 <= i < |parts| ==> Plain(parts[i])
  }

  /** One element further; ".." at the top is kept. */
  function Stepped(at: seq<string>, part: string): seq<string> {
    if part == "" || part == "." then at
    else if part == ".." && at != [] && at[|at| - 1] != ".." then at[..|at| - 1]
    else at + [part]
  }

  /** `path.Clean` of a relative name, on elements; the empty sequence is ".". */
  function Clean(parts: seq<string>): seq<string> {
    if parts == [] then [] else Stepped(Clean(parts[..|parts| - 1]), parts[|parts| - 1])
  }

  predicate Escapes(at: seq<string>) {
    at != [] && at[0] == ".."
  }

  /** How far below the start an element leads, and a sequence of them. */
  function Level(part: string): int {
    if part == ".." then -1 else if Plain(part) then 1 else 0
  }

  function Depth(parts: seq<string>): int {
    if parts == [] then 0 else Depth(parts[..|parts| - 1]) + Level(parts[|parts| - 1])
  }

  lemma StepIsPlain(at: seq<string>, part: string)
    requires AllPlain(at)
    ensures Escapes(Stepped(at, part)) <==> |at| + Level(part) < 0
    ensures !Escapes(Stepped(at, part)) ==> AllPlain(Stepped(at, part)) && |Stepped(at, part)| == |at| + Level(part)
  {
    if at != [] {
      assert Plain(at[0]) && Plain(at[|at| - 1]);
    }
  }

  /** As long as nothing escaped, cleaning leaves plain elements, one for each level of depth. */
  lemma {:induction false} CleanIsPlain(parts: seq<string>)
    requires !Escapes(Clean(parts))
    ensures AllPlain(Clean(parts)) && |Clean(parts)| == Depth(parts)
  {
    hide Stepped, AllPlain, Escapes, Level;
    if parts == [] {
      PlainNothing();
    } else {
      var front := parts[..|parts| - 1];
      EscapesForGood(front, parts[|parts| - 1]);
      assert front + [parts[|parts| - 1]] == parts;
      CleanIsPlain(front);
      StepIsPlain(Clean(front), parts[|parts| - 1]);
    }
  }

  lemma PlainNothing()
    ensures AllPlain([])
  {
  }

  /** Whatever follows, a name that escaped stays outside. */
  lemma EscapesForGood(front: seq<string>, last: string)
    ensures Escapes(Clean(front)) ==> Escapes(Clean(front + [last]))
  {
    assert (front + [last])[..|front|] == front;
  }

  ghost predicate Surfaces(parts: seq<string>) {
    exists n :: 0 <= n <= |parts| && Depth(parts[..n]) < 0
  }

  /** A name is found to escape exactly if following it ever steps above the start. */
  lemma {:induction false} EscapesIffSurfaces(parts: seq<string>)
    ensures Escapes(Clean(parts)) <==> Surfaces(parts)
  {
    if parts == [] {
      assert forall n :: 0 <= n <= |parts| ==> parts[..n] == [];
    } else {
      var front, last := parts[..|parts| - 1], parts[|parts| - 1];
      EscapesIffSurfaces(front);
      assert front + [last] == parts && parts[..|parts|] == parts;
      assert forall n :: 0 <= n < |parts| ==> parts[..n] == front[..n];
      assert Surfaces(parts) <==> Surfaces(front) || Depth(parts) < 0 by {
        if Surfaces(front) {
          var n :| 0 <= n <= |front| && Depth(front[..n]) < 0;
          assert Depth(parts[..n]) < 0;
        }
        if Depth(parts) < 0 {
          assert Depth(parts[..|parts|]) < 0;
        }
      }
      if Escapes(Clean(front)) {
        EscapesForGood(front, last);
      } else {
        CleanIsPlain(front);
        StepIsPlain(Clean(front), last);
      }
    }
  }

  lemma {:induction false} CleanOfPlain(parts: seq<string>)
    requires AllPlain(parts)
    ensures Clean(parts) == parts
  {
    if parts != [] {
      CleanOfPlain(parts[..|parts| - 1]);
    }
  }

  lemma {:induction false} CleanAppendPlain(front: seq<string>, parts: seq<string>)
    requires AllPlain(parts)
    ensures Clean(front + parts) == Clean(front) + parts
  {
    if parts == [] {
      assert front + parts == front;
    } else {
      var init, last := parts[..|parts| - 1], parts[|parts| - 1];
      CleanAppendPlain(front, init);
      assert (front + parts)[..|front + parts| - 1] == front + init;
    }
  }

  function Ups(n: nat): (ups: seq<string>)
    ensures |ups| == n && forall i :: 0 <= i < n ==> ups[i] == ".."
  {
    seq(n, i => "..")
  }

  lemma {:induction false} CleanAppendUps(front: seq<string>, n: nat)
    requires AllPlain(Clean(front)) && n <= |Clean(front)|
    ensures Clean(front + Ups(n)) == Clean(front)[..|Clean(front)| - n]
  {
    if n == 0 {
      assert front + Ups(n) == front;
    } else {
      CleanAppendUps(front, n - 1);
      assert (front + Ups(n))[..|front| + n - 1] == front + Ups(n - 1);
    }
  }

  lemma {:induction false} CleanFree(ch: char, parts: seq<string>)
    requires Free(ch, parts)
    ensures Free(ch, Clean(parts))
  {
    if parts != [] {
      CleanFree(ch, parts[..|parts| - 1]);
    }
  }

  // ------------------------------------------------------------ link targets

  function Slashed(target: string): string {
    seq(|target|, i requires 0 <= i < |target| => if target[i] == '\\' then '/' else target[i])
  }

  /** The elements of the directory a name is in. */
  function Directories(path: string): seq<string> {
    Split(path)[..|Split(path)| - 1]
  }

  /** Where a link leads, as elements below the root. */
  function Resolve(path: string, target: string): seq<string> {
    Clean(Directories(path) + Split(Slashed(target)))
  }

  /** The targets a snapshot may hold: relative, and never above the root. */
  predicate SafeLink(path: string, target: string) {
    && target != "" && '\0' !in target
    && Slashed(target)[0] != '/'
    && !Escapes(Resolve(path, target))
  }

  function Common(a: seq<string>, b: seq<string>): (n: nat)
    ensures n <= |a| && n <= |b| && a[..n] == b[..n]
  {
    if a == [] || b == [] || a[0] != b[0] then 0 else 1 + Common(a[1..], b[1..])
  }

  /** `filepath.Rel` of cleaned relative names, on elements. */
  function Relative(base: seq<string>, dest: seq<string>): (parts: seq<string>)
    ensures parts != []
  {
    var n := Common(base, dest);
    if base == dest then ["."]
    else Ups(|base| - n) + if dest == [] then ["."] else dest[n..]
  }

  /** The target a restore gives the link. */
  function Normalized(path: string, target: string): string {
    Joined(Relative(Directories(path), Resolve(path, target)))
  }

  lemma CleanLast(front: seq<string>, last: string)
    ensures Clean(front + [last]) == Stepped(Clean(front), last)
  {
    assert (front + [last])[..|front|] == front;
  }

  lemma UpThere(base: seq<string>, n: nat)
    requires AllPlain(base) && n <= |base|
    ensures Clean(base + Ups(|base| - n)) == base[..n]
  {
    hide Clean, Plain;
    CleanOfPlain(base);
    CleanAppendUps(base, |base| - n);
  }

  lemma Regroup(a: seq<string>, b: seq<string>, c: seq<string>)
    ensures a + (b + c) == a + b + c
  {
  }

  /** Up to the common directory and down again. */
  lemma UpAndDown(base: seq<string>, dest: seq<string>, n: nat)
    requires AllPlain(base) && AllPlain(dest) && n <= |base| && n <= |dest| && base[..n] == dest[..n]
    ensures Clean(base + (Ups(|base| - n) + dest[n..])) == dest
  {
    hide Clean, Ups, Plain;
    UpThere(base, n);
    CleanAppendPlain(base + Ups(|base| - n), dest[n..]);
    Regroup(base, Ups(|base| - n), dest[n..]);
    assert dest[..n] + dest[n..] == dest;
  }

  lemma UpToRoot(base: seq<string>)
    requires AllPlain(base)
    ensures Clean(base + (Ups(|base|) + ["."])) == []
  {
    hide Clean, Ups, Plain;
    UpThere(base, 0);
    CleanLast(base + Ups(|base|), ".");
    Regroup(base, Ups(|base|), ["."]);
  }

  lemma RelativeLeadsThere(base: seq<string>, dest: seq<string>)
    requires AllPlain(base) && AllPlain(dest)
    ensures Clean(base + Relative(base, dest)) == dest
  {
    hide Clean, Common, Ups, AllPlain;
    if base == dest {
      CleanOfPlain(base);
      CleanLast(base, ".");
    } else if dest == [] {
      UpToRoot(base);
    } else {
      UpAndDown(base, dest, Common(base, dest));
    }
  }

  lemma RelativeFree(ch: char, base: seq<string>, dest: seq<string>)
    requires Free(ch, base) && Free(ch, dest) && ch != '.'
    ensures Free(ch, Relative(base, dest))
  {
  }

  lemma NormalizedFree(ch: char, path: string, target: string)
    requires ch !in path && ch !in Slashed(target) && ch !in ['.', '/']
    ensures ch !in Normalized(path, target)
  {
    SplitFree(ch, path);
    SplitFree(ch, Slashed(target));
    CleanFree(ch, Directories(path) + Split(Slashed(target)));
    RelativeFree(ch, Directories(path), Resolve(path, target));
    JoinedFree(ch, Relative(Directories(path), Resolve(path, target)));
  }

  /** No element of a relative target is empty, so its spelling does not start with a slash. */
  lemma RelativeSpelling(base: seq<string>, dest: seq<string>)
    requires Free('/', base) && Free('/', dest) && AllPlain(dest)
    ensures var t := Joined(Relative(base, dest));
      Split(t) == Relative(base, dest) && t != "" && t[0] != '/'
  {
    hide Common;
    var parts := Relative(base, dest);
    SplitJoined(parts);
    assert parts[0] != "" && '/' !in parts[0];
    assert Joined(parts)[0] == parts[0][0];
  }

  lemma SlashedFree(s: string)
    requires '\\' !in s
    ensures Slashed(s) == s
  {
  }

  /**
   A restored link leads where the stored one led, is itself a target that snapshots may
   hold, and is not changed by another round.
   */
  lemma NormalizedKeepsTarget(path: string, target: string)
    requires AllPlain(Split(path)) && '\\' !in path && '\0' !in path && SafeLink(path, target)
    ensures Resolve(path, Normalized(path, target)) == Resolve(path, target)
    ensures SafeLink(path, Normalized(path, target))
    ensures Normalized(path, Normalized(path, target)) == Normalized(path, target)
  {
    hide Clean, Split, Relative, Joined;
    var base, dest, t := Directories(path), Resolve(path, target), Normalized(path, target);
    CleanIsPlain(base + Split(Slashed(target)));
    RelativeLeadsThere(base, dest);
    NormalizedFree('\\', path, target);
    NormalizedFree('\0', path, target);
    SlashedFree(t);
    CleanFree('/', base + Split(Slashed(target)));
    RelativeSpelling(base, dest);
  }
}
