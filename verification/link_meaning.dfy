/**
 What a restored link means once links are followed: restores clean targets by their
 spelling, and a target that goes up again from a name may name another place.
 */
module LinkMeaning {
  import opened ByteStrings
  import opened Links

  /** The links below the root, by the elements of their names, and what they hold. */
  type LinkMap = map<seq<string>, string>

  /**
   The place a name stands for, seen from the directory `at`: links are followed as they
   are met, at most `hops` of them. None if that leaves the root or follows too many links;
   whether anything is at the other names on the way is not asked.
   */
  function Follow(links: LinkMap, at: seq<string>, rest: seq<string>, hops: nat): Option<seq<string>>
    decreases hops, |rest|
  {
    if rest == [] then Some(at)
    else
      var part, later := rest[0], rest[1..];
      if part == "" || part == "." then Follow(links, at, later, hops)
      else if part == ".." then if at == [] then None else Follow(links, at[..|at| - 1], later, hops)
      else if at + [part] !in links then Follow(links, at + [part], later, hops)
      else if hops == 0 then None
      else Follow(links, at, Split(links[at + [part]]) + later, hops - 1)
  }

  /**
   Every ".." leaves one of the link's own directories, never a name the target has gone
   down to, and no element holds a backslash.
   */
  predicate Straight(own: seq<string>, at: seq<string>, rest: seq<string>)
    decreases |rest|
  {
    rest == [] ||
    var part, later := rest[0], rest[1..];
    if part == "" || part == "." then Straight(own, at, later)
    else if part == ".." then at <= own && Straight(own, if at == [] then [] else at[..|at| - 1], later)
    else '\\' !in part && Straight(own, at + [part], later)
  }

  /** The directories a link is in are no links themselves. */
  ghost predicate OwnFree(own: seq<string>, links: LinkMap) {
    forall at :: at <= own ==> at !in links
  }

  // ------------------------------------------------------------ cleaning, front to back

  function Go(at: seq<string>, rest: seq<string>): seq<string>
    decreases |rest|
  {
    if rest == [] then at else Go(Stepped(at, rest[0]), rest[1..])
  }

  lemma {:induction false} GoSnoc(at: seq<string>, rest: seq<string>, last: string)
    ensures Go(at, rest + [last]) == Stepped(Go(at, rest), last)
    decreases |rest|
  {
    hide Stepped;
    if rest == [] {
      assert (rest + [last])[1..] == [];
    } else {
      GoSnoc(Stepped(at, rest[0]), rest[1..], last);
      assert (rest + [last])[1..] == rest[1..] + [last];
    }
  }

  lemma {:induction false} CleanGoes(front: seq<string>, rest: seq<string>)
    ensures Clean(front + rest) == Go(Clean(front), rest)
  {
    hide Stepped;
    if rest == [] {
      assert front + rest == front;
    } else {
      var init, last := rest[..|rest| - 1], rest[|rest| - 1];
      CleanGoes(front, init);
      GoSnoc(Clean(front), init, last);
      CleanLast(front + init, last);
      assert front + rest == front + init + [last] && init + [last] == rest;
    }
  }

  lemma {:induction false} GoEscapes(at: seq<string>, rest: seq<string>)
    requires Escapes(at)
    ensures Escapes(Go(at, rest))
    decreases |rest|
  {
    if rest != [] {
      GoEscapes(Stepped(at, rest[0]), rest[1..]);
    }
  }

  // ------------------------------------------------------------ straight targets

  /** What is left without empty elements and dots. */
  function Names(rest: seq<string>): seq<string> {
    if rest == [] then []
    else if rest[0] == "" || rest[0] == "." then Names(rest[1..])
    else [rest[0]] + Names(rest[1..])
  }

  lemma {:induction false} DotsDoNothing(links: LinkMap, at: seq<string>, first: seq<string>, rest: seq<string>,
                                         hops: nat)
    ensures Follow(links, at, first + rest, hops) == Follow(links, at, first + Names(rest), hops)
    decreases hops, |first| + |rest|, |rest|
  {
    hide Split;
    if first != [] {
      hide Names;
      var part, later := first[0], first[1..];
      assert (first + rest)[1..] == later + rest && (first + Names(rest))[1..] == later + Names(rest);
      if part == "" || part == "." {
        DotsDoNothing(links, at, later, rest, hops);
      } else if part == ".." {
        if at != [] {
          DotsDoNothing(links, at[..|at| - 1], later, rest, hops);
        }
      } else if at + [part] !in links {
        DotsDoNothing(links, at + [part], later, rest, hops);
      } else if hops > 0 {
        var led := Split(links[at + [part]]);
        Regrouped(led, later, rest, Names(rest));
        DotsDoNothing(links, at, led + later, rest, hops - 1);
      }
    } else if rest != [] {
      Regrouped(first, [rest[0]], rest[1..], Names(rest[1..]));
      assert [rest[0]] + rest[1..] == rest && first + rest == rest && first + Names(rest) == Names(rest);
      if rest[0] == "" || rest[0] == "." {
        DotsDoNothing(links, at, [], rest[1..], hops);
        assert [] + rest[1..] == rest[1..] && [] + Names(rest[1..]) == Names(rest[1..]);
      } else {
        DotsDoNothing(links, at, [rest[0]], rest[1..], hops);
      }
    }
  }

  lemma Regrouped(a: seq<string>, b: seq<string>, c: seq<string>, d: seq<string>)
    ensures a + (b + c) == a + b + c && a + (b + d) == a + b + d
  {
  }

  /** Away from its own directories a straight target only goes down. */
  lemma {:induction false} StraightDown(own: seq<string>, at: seq<string>, rest: seq<string>)
    requires Straight(own, at, rest) && !(at <= own)
    ensures Go(at, rest) == at + Names(rest)
    decreases |rest|
  {
    if rest != [] {
      var part := rest[0];
      if part == "" || part == "." {
        StraightDown(own, at, rest[1..]);
      } else {
        assert at <= at + [part];
        StraightDown(own, at + [part], rest[1..]);
      }
    }
  }

  lemma {:induction false} CommonAt(own: seq<string>, dest: seq<string>, n: nat)
    requires n <= |own| && n <= |dest| && own[..n] == dest[..n]
    requires n == |own| || n == |dest| || own[n] != dest[n]
    ensures Common(own, dest) == n
    decreases n
  {
    if n > 0 {
      assert own[0] == own[..n][0] == dest[..n][0] == dest[0];
      assert own[1..][..n - 1] == own[..n][1..] && dest[1..][..n - 1] == dest[..n][1..];
      CommonAt(own[1..], dest[1..], n - 1);
    }
  }

  /** From the last own directory on the way, down by names: what a normalized target does. */
  function FromOwn(links: LinkMap, own: seq<string>, dest: seq<string>, tail: seq<string>,
                   hops: nat): Option<seq<string>>
  {
    Follow(links, own[..Common(own, dest)], dest[Common(own, dest)..] + tail, hops)
  }

  lemma {:induction false} NamesAppend(a: seq<string>, b: seq<string>)
    ensures Names(a + b) == Names(a) + Names(b)
  {
    if a == [] {
      assert a + b == b;
    } else {
      NamesAppend(a[1..], b);
      assert (a + b)[1..] == a[1..] + b;
    }
  }

  lemma DotsInside(links: LinkMap, at: seq<string>, first: seq<string>, mid: seq<string>, tail: seq<string>, hops: nat)
    ensures Follow(links, at, first + mid + tail, hops) == Follow(links, at, first + Names(mid) + tail, hops)
  {
    hide Follow, Names;
    DotsDoNothing(links, at, first, mid + tail, hops);
    DotsDoNothing(links, at, first + Names(mid), tail, hops);
    NamesAppend(mid, tail);
    Regrouped(first, mid, tail, tail);
    Regrouped(first, Names(mid), Names(tail), Names(tail));
  }

  lemma {:induction false} StraightFollows(links: LinkMap, own: seq<string>, at: seq<string>, rest: seq<string>,
                                          tail: seq<string>, hops: nat)
    requires OwnFree(own, links) && AllPlain(own)
    requires Straight(own, at, rest) && at <= own && !Escapes(Go(at, rest))
    ensures Follow(links, at, rest + tail, hops) == FromOwn(links, own, Go(at, rest), tail, hops)
    decreases |rest|
  {
    var dest := Go(at, rest);
    if rest == [] {
      CommonAt(own, at, |at|);
      assert own[..|at|] == at && at[|at|..] == [];
    } else {
      var part, later := rest[0], rest[1..];
      assert (rest + tail)[1..] == later + tail;
      if part == "" || part == "." {
        StraightFollows(links, own, at, later, tail, hops);
      } else if part == ".." {
        if at == [] {
          GoEscapes(Stepped(at, part), later);
        } else {
          assert at[|at| - 1] == own[|at| - 1];
          StraightFollows(links, own, at[..|at| - 1], later, tail, hops);
        }
      } else if at + [part] <= own {
        StraightFollows(links, own, at + [part], later, tail, hops);
      } else {
        assert [part] + later == rest;
        LeavesOwn(links, own, at, part, later, tail, hops);
      }
    }
  }

  /** The step out of the link's own directories. */
  lemma LeavesOwn(links: LinkMap, own: seq<string>, at: seq<string>, part: string, later: seq<string>,
                  tail: seq<string>, hops: nat)
    requires at <= own && !(at + [part] <= own) && Plain(part) && Straight(own, at + [part], later)
    ensures Follow(links, at, [part] + later + tail, hops) == FromOwn(links, own, Go(at + [part], later), tail, hops)
  {
    hide Follow, Straight, Go, Names;
    StraightDown(own, at + [part], later);
    var dest := Go(at + [part], later);
    assert dest == at + [part] + Names(later);
    CommonAt(own, dest, |at|);
    assert own[..|at|] == at && dest[|at|..] == [part] + Names(later);
    DotsInside(links, at, [part], later, tail, hops);
  }

  // ------------------------------------------------------------ normalized targets

  lemma {:induction false} FollowUps(links: LinkMap, at: seq<string>, n: nat, rest: seq<string>, hops: nat)
    requires n <= |at|
    ensures Follow(links, at, Ups(n) + rest, hops) == Follow(links, at[..|at| - n], rest, hops)
  {
    if n == 0 {
      assert Ups(n) + rest == rest && at[..|at|] == at;
    } else {
      FollowUps(links, at[..|at| - 1], n - 1, rest, hops);
      assert (Ups(n) + rest)[1..] == Ups(n - 1) + rest;
      assert at[..|at| - 1][..|at| - n] == at[..|at| - n];
    }
  }

  lemma NormalizedFollows(links: LinkMap, path: string, target: string, tail: seq<string>, hops: nat)
    requires AllPlain(Split(path)) && SafeLink(path, target)
    ensures Follow(links, Directories(path), Split(Normalized(path, target)) + tail, hops)
            == FromOwn(links, Directories(path), Resolve(path, target), tail, hops)
  {
    hide Clean, Split, Slashed, Follow;
    var own, dest := Directories(path), Resolve(path, target);
    var n := Common(own, dest);
    CleanIsPlain(own + Split(Slashed(target)));
    CleanFree('/', own + Split(Slashed(target)));
    RelativeSpelling(own, dest);
    if own == dest {
      CommonAt(own, dest, |own|);
      DotFirst(links, own, tail, hops);
      assert own[..|own|] == own && own[|own|..] + tail == tail;
    } else if dest == [] {
      FollowUps(links, own, |own| - n, ["."] + tail, hops);
      Regrouped(Ups(|own| - n), ["."], tail, tail);
      DotFirst(links, own[..n], tail, hops);
      assert dest[n..] + tail == tail;
    } else {
      FollowUps(links, own, |own| - n, dest[n..] + tail, hops);
      Regrouped(Ups(|own| - n), dest[n..], tail, tail);
    }
  }

  lemma DotFirst(links: LinkMap, at: seq<string>, rest: seq<string>, hops: nat)
    ensures Follow(links, at, ["."] + rest, hops) == Follow(links, at, rest, hops)
  {
    assert (["."] + rest)[1..] == rest;
  }

  // ------------------------------------------------------------ targets that turn back

  /** No ".." at the root before the first element with a backslash. */
  predicate Stays(at: seq<string>, rest: seq<string>)
    decreases |rest|
  {
    rest == [] ||
    var part, later := rest[0], rest[1..];
    if part == "" || part == "." then Stays(at, later)
    else if part == ".." then at != [] && Stays(at[..|at| - 1], later)
    else '\\' in part || Stays(at + [part], later)
  }

  /** The next element that does anything is "..". */
  predicate TurnsBack(rest: seq<string>) {
    rest != [] && (rest[0] == ".." || ((rest[0] == "" || rest[0] == ".") && TurnsBack(rest[1..])))
  }

  /**
   A target that is not straight goes down to a name outside its own directories and turns
   back from it, or has a backslash in it. Put a link there, and it is the first link met.
   */
  lemma {:induction false} Detour(own: seq<string>, at: seq<string>, rest: seq<string>)
    returns (q: seq<string>, after: seq<string>)
    requires !Straight(own, at, rest) && Stays(at, rest) && Free('\\', own)
    requires at <= own || !TurnsBack(rest)
    ensures q != [] && !(q <= own) && (at <= own || |q| > |at|)
    ensures q[|q| - 1] in rest && |after| < |rest| && forall part :: part in after ==> part in rest
    ensures TurnsBack(after) || '\\' in q[|q| - 1]
    ensures forall target: string ::
      Follow(map[q := target], at, rest, 1) == Follow(map[q := target], q[..|q| - 1], Split(target) + after, 0)
    decreases |rest|
  {
    var part, later := rest[0], rest[1..];
    assert at + [part] <= own ==> own[|at|] == part;
    if part == "" || part == "." {
      q, after := Detour(own, at, later);
    } else if part == ".." {
      q, after := Detour(own, at[..|at| - 1], later);
    } else if '\\' in part || (!(at + [part] <= own) && TurnsBack(later)) {
      q, after := at + [part], later;
    } else {
      q, after := Detour(own, at + [part], later);
    }
  }

  // ------------------------------------------------------------ a link that leads far away

  lemma {:induction false} FollowPlain(links: LinkMap, at: seq<string>, names: seq<string>, rest: seq<string>,
                                       hops: nat)
    requires AllPlain(names) && forall i :: 0 < i <= |names| ==> at + names[..i] !in links
    ensures Follow(links, at, names + rest, hops) == Follow(links, at + names, rest, hops)
    decreases |names|
  {
    if names == [] {
      assert names + rest == rest && at + names == at;
    } else {
      var next, later := at + [names[0]], names[1..];
      assert names[..1] == [names[0]];
      forall i | 0 < i <= |later| ensures next + later[..i] !in links {
        assert next + later[..i] == at + names[..i + 1];
      }
      FollowPlain(links, next, later, rest, hops);
      assert (names + rest)[1..] == later + rest && next + later == at + names;
    }
  }

  /** A way of `n` elements, all the same. */
  function Way(f: string, n: nat): (way: seq<string>)
    ensures |way| == n && forall i :: 0 <= i < n ==> way[i] == f
  {
    seq(n, i => f)
  }

  /** After turning back, an element less is on the way. */
  lemma {:induction false} TurnedBack(links: LinkMap, at: seq<string>, rest: seq<string>, hops: nat)
    returns (later: seq<string>)
    requires TurnsBack(rest) && at != []
    ensures |later| < |rest| && forall part :: part in later ==> part in rest
    ensures Follow(links, at, rest, hops) == Follow(links, at[..|at| - 1], later, hops)
  {
    if rest[0] == ".." {
      later := rest[1..];
    } else {
      later := TurnedBack(links, at, rest[1..], hops);
    }
  }

  /** A link at `q` that leads along a long way of new names. */
  ghost predicate LeadsAway(q: seq<string>, f: string, n: nat, target: string) {
    q != [] && Plain(f) && f != q[|q| - 1] && n > 0 && Split(target) == Way(f, n)
  }

  /**
   Whatever comes after too few elements to come back, the way's first name stays; a way once
   left is not entered again.
   */
  lemma {:induction false} StaysAway(q: seq<string>, f: string, n: nat, target: string, at: seq<string>,
                                     rest: seq<string>)
    requires LeadsAway(q, f, n, target)
    requires q[..|q| - 1] + [f] <= at && f !in rest && |rest| < |at| - |q| + 1
    ensures var r := Follow(map[q := target], at, rest, 0);
      && r.Some? && q[..|q| - 1] + [f] <= r.value
      && (q[..|q| - 1] + Way(f, n) <= r.value ==> q[..|q| - 1] + Way(f, n) <= at)
    decreases |rest|
  {
    if rest != [] {
      var part, later := rest[0], rest[1..];
      if part == "" || part == "." {
        StaysAway(q, f, n, target, at, later);
      } else if part == ".." {
        StaysAway(q, f, n, target, at[..|at| - 1], later);
      } else {
        var end := q[..|q| - 1] + Way(f, n);
        assert (at + [part])[|q| - 1] == f && end[|end| - 1] == f;
        assert end <= at + [part] ==> end <= at;
        StaysAway(q, f, n, target, at + [part], later);
      }
    }
  }

  lemma EntersWay(q: seq<string>, f: string, n: nat, target: string, rest: seq<string>)
    requires LeadsAway(q, f, n, target)
    ensures Follow(map[q := target], q[..|q| - 1], Split(target) + rest, 0)
            == Follow(map[q := target], q[..|q| - 1] + Way(f, n), rest, 0)
  {
    var base := q[..|q| - 1];
    forall i | 0 < i <= n ensures base + Way(f, n)[..i] !in map[q := target] {
      assert (base + Way(f, n)[..i])[|q| - 1] == f;
    }
    FollowPlain(map[q := target], base, Way(f, n), rest, 0);
  }

  /** The target as it was never comes back from the way, and not to its end if it turned back. */
  lemma DetourEnds(q: seq<string>, f: string, n: nat, target: string, after: seq<string>)
    requires LeadsAway(q, f, n, target) && f !in after && n > |after|
    ensures var r := Follow(map[q := target], q[..|q| - 1], Split(target) + after, 0);
      && r.Some? && q[..|q| - 1] + [f] <= r.value
      && (TurnsBack(after) ==> !(q[..|q| - 1] + Way(f, n) <= r.value))
  {
    var end := q[..|q| - 1] + Way(f, n);
    EntersWay(q, f, n, target, after);
    if TurnsBack(after) {
      var later := TurnedBack(map[q := target], end, after, 0);
      StaysAway(q, f, n, target, end[..|end| - 1], later);
    } else {
      StaysAway(q, f, n, target, end, after);
    }
  }

  /** A cleaned target that does not pass through `q` does not meet the link. */
  lemma CleanedMisses(own: seq<string>, dest: seq<string>, q: seq<string>, target: string)
    requires !(q <= dest) && AllPlain(dest)
    ensures FromOwn(map[q := target], own, dest, [], 1) == Some(dest)
  {
    hide Follow, Common, Plain;
    var k := Common(own, dest);
    var down := dest[k..];
    forall i | 0 < i <= |down| ensures own[..k] + down[..i] !in map[q := target] {
      assert own[..k] + down[..i] == dest[..k + i];
    }
    FollowPlain(map[q := target], own[..k], down, [], 1);
    assert own[..k] + down == dest;
    Arrived(map[q := target], dest, 1);
  }

  lemma Arrived(links: LinkMap, at: seq<string>, hops: nat)
    ensures Follow(links, at, [], hops) == Some(at)
  {
  }

  lemma LinkMet(links: LinkMap, at: seq<string>, part: string, rest: seq<string>, hops: nat)
    requires Plain(part) && at + [part] in links && hops > 0
    ensures Follow(links, at, [part] + rest, hops) == Follow(links, at, Split(links[at + [part]]) + rest, hops - 1)
  {
  }

  /** One that does pass through `q` meets it, and goes the whole way. */
  lemma CleanedMeets(own: seq<string>, dest: seq<string>, q: seq<string>, f: string, n: nat, target: string)
    requires LeadsAway(q, f, n, target) && !(q <= own) && q <= dest && AllPlain(dest)
    ensures FromOwn(map[q := target], own, dest, [], 1) == Some(q[..|q| - 1] + Way(f, n) + dest[|q|..])
  {
    hide Follow, Common, Plain, Split;
    var links, base, part := map[q := target], q[..|q| - 1], q[|q| - 1];
    var k := Common(own, dest);
    NotCommon(own, dest, q, k);
    var down, last := dest[k..|q| - 1], dest[|q|..];
    forall i | 0 < i <= |down| ensures own[..k] + down[..i] !in links {
      assert own[..k] + down[..i] == dest[..k + i];
    }
    FollowPlain(links, own[..k], down, [part] + last, 1);
    assert dest[k..] + [] == down + ([part] + last) && own[..k] + down == base && base + [part] == q;
    LinkMet(links, base, part, last, 1);
    EntersWay(q, f, n, target, last);
    var end := base + Way(f, n);
    forall i | 0 < i <= |last| ensures end + last[..i] !in links {
      assert (end + last[..i])[|q| - 1] == f;
    }
    FollowPlain(links, end, last, [], 0);
    assert last + [] == last;
    Arrived(links, end + last, 0);
  }

  lemma NotCommon(own: seq<string>, dest: seq<string>, q: seq<string>, k: nat)
    requires k <= |own| && k <= |dest| && own[..k] == dest[..k] && q <= dest && !(q <= own)
    ensures k < |q|
  {
  }

  // ------------------------------------------------------------ the elements of a target

  lemma {:induction false} SplitAt(s: string) returns (rest: string)
    ensures if |Split(s)| == 1 then s == Split(s)[0]
            else s == Split(s)[0] + "/" + rest && Split(s) == [Split(s)[0]] + Split(rest)
    ensures |Split(s)[0]| <= |s|
  {
    if s == "" {
      rest := "";
    } else if s[0] == '/' {
      rest := s[1..];
      assert s == "" + "/" + rest;
    } else {
      rest := SplitAt(s[1..]);
      assert s == [s[0]] + s[1..];
    }
  }

  lemma {:induction false} SplitShort(s: string)
    ensures forall part :: part in Split(s) ==> |part| <= |s|
    decreases |s|
  {
    hide Split;
    var rest := SplitAt(s);
    if |Split(s)| > 1 {
      SplitShort(rest);
    }
  }

  lemma {:induction false} SplitCovers(ch: char, s: string)
    requires Free(ch, Split(s)) && ch != '/'
    ensures ch !in s
    decreases |s|
  {
    hide Split;
    var rest := SplitAt(s);
    assert ch !in Split(s)[0];
    if |Split(s)| > 1 {
      assert forall i :: 0 <= i < |Split(rest)| ==> Split(rest)[i] == Split(s)[i + 1];
      SplitCovers(ch, rest);
    }
  }

  lemma {:induction false} CleanElements(parts: seq<string>)
    ensures forall part :: part in Clean(parts) ==> part in parts
  {
    if parts != [] {
      var front, last := parts[..|parts| - 1], parts[|parts| - 1];
      CleanElements(front);
      assert parts == front + [last];
      assert forall part :: part in Stepped(Clean(front), last) ==> part in Clean(front) || part == last;
    }
  }

  lemma {:induction false} StraightFree(own: seq<string>, at: seq<string>, rest: seq<string>)
    requires Straight(own, at, rest)
    ensures Free('\\', rest)
    decreases |rest|
  {
    if rest != [] {
      var part, later := rest[0], rest[1..];
      StraightFree(own, if part == "" || part == "." then at else if part != ".." then at + [part]
                        else if at == [] then [] else at[..|at| - 1], later);
    }
  }

  lemma SlashedHead(p: string, s: string)
    ensures Slashed(p + "/" + s) == Slashed(p) + "/" + Slashed(s)
  {
  }

  /** Up to its first backslash a safe target stays below the root. */
  lemma {:induction false} SafeStays(at: seq<string>, s: string)
    requires AllPlain(at) && !Escapes(Go(at, Split(Slashed(s))))
    ensures Stays(at, Split(s))
    decreases |s|
  {
    hide Split, Slashed;
    var rest := SplitAt(s);
    var part, parts := Split(s)[0], Split(s);
    if '\\' !in part {
      SlashedFree(part);
      SplitHead(part, Slashed(rest));
      SplitHead(part, "");
      if |parts| > 1 {
        SlashedHead(part, rest);
      }
      var all := Split(Slashed(s));
      assert all[0] == part && (|parts| > 1 ==> all[1..] == Split(Slashed(rest)) && parts[1..] == Split(rest));
      if Escapes(Stepped(at, part)) {
        GoEscapes(Stepped(at, part), all[1..]);
      }
      StepIsPlain(at, part);
      if |parts| > 1 {
        SafeStays(Stepped(at, part), rest);
      } else {
        assert parts[1..] == [];
      }
    }
  }

  // ------------------------------------------------------------ the exact condition

  lemma ResolveGoes(path: string, target: string)
    requires AllPlain(Split(path))
    ensures Resolve(path, target) == Go(Directories(path), Split(Slashed(target)))
  {
    hide Clean, Split, Slashed, Go;
    CleanOfPlain(Directories(path));
    CleanGoes(Directories(path), Split(Slashed(target)));
  }

  lemma StraightMeansSame(path: string, target: string, links: LinkMap, tail: seq<string>, hops: nat)
    requires AllPlain(Split(path)) && SafeLink(path, target)
    requires Straight(Directories(path), Directories(path), Split(target)) && OwnFree(Directories(path), links)
    ensures Follow(links, Directories(path), Split(target) + tail, hops)
            == Follow(links, Directories(path), Split(Normalized(path, target)) + tail, hops)
  {
    hide Clean, Split, Slashed, Go, Follow, Straight, FromOwn;
    StraightFree(Directories(path), Directories(path), Split(target));
    SplitCovers('\\', target);
    SlashedFree(target);
    ResolveGoes(path, target);
    StraightFollows(links, Directories(path), Directories(path), Split(target), tail, hops);
    NormalizedFollows(links, path, target, tail, hops);
  }

  lemma NoTail(rest: seq<string>)
    ensures rest + [] == rest
  {
  }

  /** A name longer than any in the link's path or target. */
  function NewName(path: string, target: string): (f: string)
    ensures Plain(f) && '/' !in f && |f| > |path| && |f| > |target|
  {
    seq(|path| + |target| + 3, i => 'x')
  }

  lemma SlashedLength(target: string)
    ensures |Slashed(target)| == |target|
  {
  }

  lemma NewNameIsNew(path: string, target: string)
    ensures NewName(path, target) !in Split(target) && NewName(path, target) !in Resolve(path, target)
  {
    hide Clean, Split, Slashed, NewName;
    var parts := Directories(path) + Split(Slashed(target));
    SplitShort(path);
    SplitShort(target);
    SplitShort(Slashed(target));
    SlashedLength(target);
    CleanElements(parts);
    assert forall part :: part in Directories(path) ==> part in Split(path);
  }

  lemma PrefixHolds(base: seq<string>, f: string, dest: seq<string>)
    ensures base + [f] <= dest ==> f in dest
  {
    assert base + [f] <= dest ==> dest[|base|] == f;
  }

  lemma DetourMeansOther(path: string, target: string) returns (links: LinkMap)
    requires AllPlain(Split(path)) && '\\' !in path && SafeLink(path, target)
    requires !Straight(Directories(path), Directories(path), Split(target))
    ensures OwnFree(Directories(path), links)
    ensures Follow(links, Directories(path), Split(target), 1)
            != Follow(links, Directories(path), Split(Normalized(path, target)), 1)
  {
    hide Clean, Split, Slashed, Go, Follow, Straight, FromOwn, Stays, TurnsBack, NewName, Way;
    var own, dest, f := Directories(path), Resolve(path, target), NewName(path, target);
    ResolveGoes(path, target);
    SafeStays(own, target);
    SplitFree('\\', path);
    var q, after := Detour(own, own, Split(target));
    var n := |after| + 1;
    var away := Joined(Way(f, n));
    SplitJoined(Way(f, n));
    NewNameIsNew(path, target);
    links := map[q := away];
    NormalizedFollows(links, path, target, [], 1);
    NoTail(Split(Normalized(path, target)));
    DetourEnds(q, f, n, away, after);
    TargetFree(path, target);
    if q <= dest {
      CleanedMeets(own, dest, q, f, n, away);
      assert q[|q| - 1] in dest;
    } else {
      CleanedMisses(own, dest, q, away);
      PrefixHolds(q[..|q| - 1], f, dest);
    }
  }

  lemma TargetFree(path: string, target: string)
    requires '\\' !in path && SafeLink(path, target)
    ensures AllPlain(Resolve(path, target)) && forall part :: part in Resolve(path, target) ==> '\\' !in part
  {
    hide Clean, Split;
    CleanIsPlain(Directories(path) + Split(Slashed(target)));
    SplitFree('\\', path);
    SplitFree('\\', Slashed(target));
    CleanFree('\\', Directories(path) + Split(Slashed(target)));
  }

  /**
   A restored link stands for the same place as the stored one, whatever other links there
   are, exactly if its target is straight.
   */
  lemma RestoredLinkMeansSameIff(path: string, target: string)
    requires AllPlain(Split(path)) && '\\' !in path && SafeLink(path, target)
    ensures var own := Directories(path);
      Straight(own, own, Split(target)) <==>
      forall links: LinkMap, hops: nat :: OwnFree(own, links) ==>
        Follow(links, own, Split(target), hops) == Follow(links, own, Split(Normalized(path, target)), hops)
  {
    hide *;
    var own := Directories(path);
    if Straight(own, own, Split(target)) {
      forall links: LinkMap, hops: nat | OwnFree(own, links)
        ensures Follow(links, own, Split(target), hops) == Follow(links, own, Split(Normalized(path, target)), hops)
      {
        StraightMeansSame(path, target, links, [], hops);
        NoTail(Split(target));
        NoTail(Split(Normalized(path, target)));
      }
    } else {
      var links := DetourMeansOther(path, target);
    }
  }

  // ------------------------------------------------------------ a whole tree

  function NameOf(q: seq<string>): string
    requires q != []
  {
    Joined(q)
  }

  /** Names and targets a snapshot may hold, no link in the way to another, and every target straight. */
  ghost predicate AllStraight(links: LinkMap) {
    forall q :: q in links ==>
      && q != [] && AllPlain(q) && Free('/', q)
      && SafeLink(NameOf(q), links[q])
      && OwnFree(q[..|q| - 1], links)
      && Straight(q[..|q| - 1], q[..|q| - 1], Split(links[q]))
  }

  /** The links as a restore creates them. */
  function Respelled(links: LinkMap): LinkMap
    requires [] !in links
  {
    map q | q in links :: Normalized(NameOf(q), links[q])
  }

  lemma OwnDirectories(q: seq<string>)
    requires q != [] && AllPlain(q) && Free('/', q)
    ensures Split(NameOf(q)) == q && Directories(NameOf(q)) == q[..|q| - 1]
  {
    hide Split;
    SplitJoined(q);
  }

  lemma RootIsNoLink(links: LinkMap)
    requires AllStraight(links)
    ensures [] !in links
  {
  }

  lemma OneRespelled(links: LinkMap, at: seq<string>, part: string, later: seq<string>, hops: nat)
    requires AllStraight(links) && at + [part] in links
    ensures var q := at + [part];
      Follow(links, at, Split(links[q]) + later, hops)
          == Follow(links, at, Split(Normalized(NameOf(q), links[q])) + later, hops)
  {
    hide Split, Normalized, Straight, SafeLink, Follow;
    var q := at + [part];
    OwnDirectories(q);
    assert q[..|q| - 1] == at;
    StraightMeansSame(NameOf(q), links[q], links, later, hops);
  }

  /**
   A tree of straight links keeps its meaning when a restore respells all of them: every name
   stands for the same place.
   */
  lemma {:induction false} RespelledTreeMeansSame(links: LinkMap, at: seq<string>, rest: seq<string>, hops: nat)
    requires AllStraight(links)
    ensures [] !in links && Follow(links, at, rest, hops) == Follow(Respelled(links), at, rest, hops)
    decreases hops, |rest|
  {
    hide Split, Normalized, AllStraight;
    RootIsNoLink(links);
    if rest != [] {
      var part, later := rest[0], rest[1..];
      if part == "" || part == "." {
        RespelledTreeMeansSame(links, at, later, hops);
      } else if part == ".." {
        RespelledTreeMeansSame(links, if at == [] then [] else at[..|at| - 1], later, hops);
      } else if at + [part] !in links {
        RespelledTreeMeansSame(links, at + [part], later, hops);
      } else if hops > 0 {
        OneRespelled(links, at, part, later, hops - 1);
        RespelledTreeMeansSame(links, at, Split(Normalized(NameOf(at + [part]), links[at + [part]])) + later, hops - 1);
      }
    }
  }

  /**
   The failure: beside the link "s" to "d/e", the link "l" to "s/../x" leads to "d/x". It is
   restored as a link to "x".
   */
  lemma RestoredLinkLeadsElsewhere()
    ensures SafeLink("l", "s/../x") && Normalized("l", "s/../x") == "x"
    ensures var links: LinkMap := map[["s"] := "d/e", ["l"] := "s/../x"];
      && Follow(links, [], ["l"], 2) == Some(["d", "x"])
      && Follow(links[["l"] := "x"], [], ["l"], 2) == Some(["x"])
  {
    hide Follow, Split, Go, Slashed, Clean;
    var links: LinkMap := map[["s"] := "d/e", ["l"] := "s/../x"];
    var restored := links[["l"] := "x"];
    ExampleElements();
    ExampleTarget();
    assert [] + ["l"] == ["l"] && [] + ["s"] == ["s"] && [] + ["x"] == ["x"] && [] + ["d", "e"] == ["d", "e"];
    assert ["d", "e"][..1] == ["d"] && ["d", "e"][..2] == ["d", "e"] && ["x"][..1] == ["x"];
    assert [] + ["d"] == ["d"] && ["d"] + ["x"] == ["d", "x"] && ["d", "e"][..1] == ["d"];
    LinkMet(links, [], "l", [], 2);
    LinkMet(links, [], "s", ["..", "x"], 1);
    assert ["l"] + [] == ["l"] && ["s", "..", "x"] + [] == ["s"] + ["..", "x"];
    FollowPlain(links, [], ["d", "e"], ["..", "x"], 0);
    FollowUps(links, ["d", "e"], 1, ["x"], 0);
    assert Ups(1) + ["x"] == ["..", "x"];
    FollowPlain(links, ["d"], ["x"], [], 0);
    Arrived(links, ["d", "x"], 0);
    LinkMet(restored, [], "l", [], 2);
    FollowPlain(restored, [], ["x"], [], 1);
    Arrived(restored, ["x"], 1);
    assert ["x"] + [] == ["x"];
  }

  lemma ExampleTarget()
    ensures SafeLink("l", "s/../x") && Normalized("l", "s/../x") == "x"
  {
    hide Split;
    ExampleElements();
    assert Slashed("s/../x") == "s/../x";
    ResolveGoes("l", "s/../x");
    assert Directories("l") == [];
    assert Go([], ["s", "..", "x"]) == ["x"] by {
      assert Go(["s"], ["..", "x"]) == Go([], ["x"]) == Go(["x"], []) == ["x"];
    }
    assert Relative([], ["x"]) == ["x"];
  }

  lemma ExampleElements()
    ensures Split("s/../x") == ["s", "..", "x"] && Split("d/e") == ["d", "e"] && Split("l") == ["l"]
        && Split("x") == ["x"]
  {
    hide Split;
    SplitHead("s", "../x");
    SplitHead("..", "x");
    SplitHead("x", "");
    SplitHead("d", "e");
    SplitHead("e", "");
    SplitHead("l", "");
    assert "s/../x" == "s" + "/" + "../x" && "../x" == ".." + "/" + "x" && "d/e" == "d" + "/" + "e";
  }
}
