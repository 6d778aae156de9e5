/** Task dependencies: the depth-capped cycle search, and what it guarantees about the stored graph. */
module Dependencies {
  /** The tasks and the tasks each of them waits for. */
  type Graph = map<nat, seq<nat>>

  const MAX_DEPTH: nat := 32

  // ------------------------------------------------------------ the search

  /** Searches upwards from one task; the answer, and the tasks visited so far. */
  function Dfs(g: Graph, target: nat, id: nat, depth: nat, visited: set<nat>): (bool, set<nat>)
    requires depth <= MAX_DEPTH + 1
    decreases MAX_DEPTH + 1 - depth, 0, 0
  {
    if depth > MAX_DEPTH || id == target then (true, visited)
    else if id in visited || id !in g then (false, visited + {id})
    else DfsAll(g, target, g[id], depth + 1, visited + {id})
  }

  function DfsAll(g: Graph, target: nat, ids: seq<nat>, depth: nat, visited: set<nat>): (bool, set<nat>)
    requires depth <= MAX_DEPTH + 1
    decreases MAX_DEPTH + 1 - depth, 1, |ids|
  {
    if ids == [] then (false, visited)
    else
      var (found, seen) := Dfs(g, target, ids[0], depth, visited);
      if found then (true, seen) else DfsAll(g, target, ids[1..], depth, seen)
  }

  function HasCyclicDependency(g: Graph, target: nat, candidates: seq<nat>): bool {
    DfsAll(g, target, candidates, 0, {}).0
  }

  // ------------------------------------------------------------ reachability

  /** Each task on the path waits for the next. */
  predicate IsPath(g: Graph, p: seq<nat>) {
    p != [] && forall i :: 0 <= i < |p| - 1 ==> p[i] in g && p[i + 1] in g[p[i]]
  }

  ghost predicate Reaches(g: Graph, a: nat, b: nat) {
    exists p :: IsPath(g, p) && p[0] == a && p[|p| - 1] == b
  }

  ghost predicate Acyclic(g: Graph) {
    forall a, d :: a in g && d in g[a] ==> !Reaches(g, d, a)
  }

  lemma ReachesItself(g: Graph, a: nat)
    ensures Reaches(g, a, a)
  {
    assert IsPath(g, [a]) && [a][0] == a;
  }

  lemma ReachesOver(g: Graph, a: nat, d: nat, b: nat)
    requires a in g && d in g[a] && Reaches(g, d, b)
    ensures Reaches(g, a, b)
  {
    var p :| IsPath(g, p) && p[0] == d && p[|p| - 1] == b;
    var q := [a] + p;
    assert forall i :: 0 < i < |q| ==> q[i] == p[i - 1];
    assert IsPath(g, q) && q[0] == a && q[|q| - 1] == b;
  }

  // ------------------------------------------------------------ a negative answer is right

  /** Everything a set of visited tasks waits for is in `all`. */
  predicate ClosedIn(g: Graph, visited: set<nat>, all: set<nat>) {
    forall v, d :: v in visited && v in g && d in g[v] ==> d in all
  }

  lemma {:induction false} DfsVisits(g: Graph, target: nat, id: nat, depth: nat, visited: set<nat>)
    requires depth <= MAX_DEPTH + 1 && !Dfs(g, target, id, depth, visited).0
    ensures var all := Dfs(g, target, id, depth, visited).1;
      && visited + {id} <= all && (target in all ==> target in visited) && ClosedIn(g, all - visited, all)
    decreases MAX_DEPTH + 1 - depth, 0, 0
  {
    if id !in visited && id in g {
      DfsAllVisits(g, target, g[id], depth + 1, visited + {id});
    }
  }

  lemma {:induction false} DfsAllVisits(g: Graph, target: nat, ids: seq<nat>, depth: nat, visited: set<nat>)
    requires depth <= MAX_DEPTH + 1 && !DfsAll(g, target, ids, depth, visited).0
    ensures var all := DfsAll(g, target, ids, depth, visited).1;
      && visited <= all && (forall id :: id in ids ==> id in all)
      && (target in all ==> target in visited) && ClosedIn(g, all - visited, all)
    decreases MAX_DEPTH + 1 - depth, 1, |ids|
  {
    if ids != [] {
      var seen := Dfs(g, target, ids[0], depth, visited).1;
      DfsVisits(g, target, ids[0], depth, visited);
      DfsAllVisits(g, target, ids[1..], depth, seen);
      forall id | id in ids ensures id == ids[0] || id in ids[1..] { }
    }
  }

  lemma {:induction false} ClosedKeepsPaths(g: Graph, all: set<nat>, p: seq<nat>)
    requires ClosedIn(g, all, all) && IsPath(g, p) && p[0] in all
    ensures p[|p| - 1] in all
  {
    if |p| > 1 {
      var rest := p[1..];
      assert p[1] in g[p[0]];
      forall i | 0 <= i < |rest| - 1 ensures rest[i] in g && rest[i + 1] in g[rest[i]] {
        assert p[i + 1] in g && p[i + 2] in g[p[i + 1]];
      }
      ClosedKeepsPaths(g, all, rest);
    }
  }

  /**
   When the search finds nothing, the searched id is out of reach of every candidate,
   whatever was visited on the way.
   */
  lemma NoCycleFoundIsRight(g: Graph, target: nat, candidates: seq<nat>, c: nat)
    requires !HasCyclicDependency(g, target, candidates) && c in candidates
    ensures !Reaches(g, c, target)
  {
    DfsAllVisits(g, target, candidates, 0, {});
    var all := DfsAll(g, target, candidates, 0, {}).1;
    assert all - {} == all;
    if Reaches(g, c, target) {
      var p :| IsPath(g, p) && p[0] == c && p[|p| - 1] == target;
      ClosedKeepsPaths(g, all, p);
    }
  }

  // ------------------------------------------------------------ when a positive answer is right

  /** The tasks a search is inside of, in order: each waits for the next, none twice, the target not among them. */
  predicate IsStack(g: Graph, target: nat, stack: seq<nat>) {
    && (forall i :: 0 <= i < |stack| ==> stack[i] in g && stack[i] != target)
    && (forall i :: 0 <= i < |stack| - 1 ==> stack[i + 1] in g[stack[i]])
    && (forall i, j :: 0 <= i < j < |stack| ==> stack[i] != stack[j])
  }

  /** A stack as deep as the cap allows, with one more task to look at. */
  predicate TooLong(g: Graph, target: nat, stack: seq<nat>, next: nat) {
    |stack| == 33 && IsStack(g, target, stack) && next in g[stack[32]]
  }

  /** A simple upstream path from a candidate that goes past the cap without meeting the target. */
  ghost predicate Deep(g: Graph, target: nat, candidates: seq<nat>) {
    exists stack, next :: TooLong(g, target, stack, next) && stack[0] in candidates
  }

  /** What is looked at next is a candidate, or something the last task of the stack waits for. */
  predicate Follows(g: Graph, stack: seq<nat>, candidates: seq<nat>, id: nat) {
    if stack == [] then id in candidates
    else stack[0] in candidates && stack[|stack| - 1] in g && id in g[stack[|stack| - 1]]
  }

  lemma {:induction false} DfsFinds(g: Graph, target: nat, id: nat, visited: set<nat>, stack: seq<nat>,
                                    candidates: seq<nat>)
    requires |stack| <= MAX_DEPTH + 1 && Dfs(g, target, id, |stack|, visited).0
    requires IsStack(g, target, stack) && Follows(g, stack, candidates, id) && forall v :: v in stack ==> v in visited
    ensures Reaches(g, id, target) || Deep(g, target, candidates)
    decreases MAX_DEPTH + 1 - |stack|, 0, 0
  {
    if |stack| > MAX_DEPTH {
      assert TooLong(g, target, stack, id);
    } else if id == target {
      ReachesItself(g, id);
    } else {
      var deeper := stack + [id];
      assert forall v :: v in deeper <==> v in stack || v == id;
      var d := DfsAllFinds(g, target, g[id], visited + {id}, deeper, candidates);
      if Reaches(g, d, target) { ReachesOver(g, id, d, target); }
    }
  }

  lemma {:induction false} DfsAllFinds(g: Graph, target: nat, ids: seq<nat>, visited: set<nat>, stack: seq<nat>,
                                       candidates: seq<nat>)
    returns (d: nat)
    requires |stack| <= MAX_DEPTH + 1 && DfsAll(g, target, ids, |stack|, visited).0
    requires IsStack(g, target, stack) && (forall id :: id in ids ==> Follows(g, stack, candidates, id))
    requires forall v :: v in stack ==> v in visited
    ensures d in ids && (Reaches(g, d, target) || Deep(g, target, candidates))
    decreases MAX_DEPTH + 1 - |stack|, 1, |ids|
  {
    var (found, seen) := Dfs(g, target, ids[0], |stack|, visited);
    if found {
      DfsFinds(g, target, ids[0], visited, stack, candidates);
      d := ids[0];
    } else {
      DfsVisits(g, target, ids[0], |stack|, visited);
      d := DfsAllFinds(g, target, ids[1..], seen, stack, candidates);
    }
  }

  /** Unless some simple path from a candidate goes past the cap, the search is exact, however many tasks there are. */
  lemma SearchIsExactUnlessDeep(g: Graph, target: nat, candidates: seq<nat>)
    requires !Deep(g, target, candidates)
    ensures HasCyclicDependency(g, target, candidates) <==> exists c :: c in candidates && Reaches(g, c, target)
  {
    if HasCyclicDependency(g, target, candidates) {
      var c := DfsAllFinds(g, target, candidates, {}, [], candidates);
    } else {
      forall c | c in candidates ensures !Reaches(g, c, target) { NoCycleFoundIsRight(g, target, candidates, c); }
    }
  }

  /** In particular with at most 32 other stored tasks. */
  lemma SearchIsExact(g: Graph, target: nat, candidates: seq<nat>)
    requires |g.Keys - {target}| <= 32
    ensures HasCyclicDependency(g, target, candidates) <==> exists c :: c in candidates && Reaches(g, c, target)
  {
    if Deep(g, target, candidates) {
      var stack, next :| TooLong(g, target, stack, next) && stack[0] in candidates;
      DistinctFit(stack, g.Keys - {target});
    }
    SearchIsExactUnlessDeep(g, target, candidates);
  }

  // ------------------------------------------------------------ when the cap refuses

  /** At most 32 steps upstream of a candidate. */
  ghost predicate Near(g: Graph, candidates: seq<nat>, v: nat) {
    exists p :: IsPath(g, p) && |p| <= 33 && p[0] in candidates && p[|p| - 1] == v
  }

  /** The path the search is on. */
  predicate Leading(g: Graph, candidates: seq<nat>, stack: seq<nat>, id: nat) {
    IsPath(g, stack + [id]) && (stack + [id])[0] in candidates
  }

  lemma {:induction false} DfsVisitsNear(g: Graph, target: nat, id: nat, visited: set<nat>, stack: seq<nat>,
                                         candidates: seq<nat>)
    requires |stack| <= MAX_DEPTH + 1 && !Dfs(g, target, id, |stack|, visited).0 && Leading(g, candidates, stack, id)
    ensures forall v :: v in Dfs(g, target, id, |stack|, visited).1 - visited ==> Near(g, candidates, v)
    decreases MAX_DEPTH + 1 - |stack|, 0, 0
  {
    var p := stack + [id];
    assert Near(g, candidates, id) by { assert IsPath(g, p) && p[|p| - 1] == id; }
    if id !in visited && id in g {
      forall d | d in g[id] ensures Leading(g, candidates, p, d) {
        assert IsPath(g, [d]);
        Join(g, p, [d]);
      }
      DfsAllVisitsNear(g, target, g[id], visited + {id}, p, candidates);
    }
  }

  lemma {:induction false} DfsAllVisitsNear(g: Graph, target: nat, ids: seq<nat>, visited: set<nat>, stack: seq<nat>,
                                            candidates: seq<nat>)
    requires |stack| <= MAX_DEPTH + 1 && !DfsAll(g, target, ids, |stack|, visited).0
    requires forall d :: d in ids ==> Leading(g, candidates, stack, d)
    ensures forall v :: v in DfsAll(g, target, ids, |stack|, visited).1 - visited ==> Near(g, candidates, v)
    decreases MAX_DEPTH + 1 - |stack|, 1, |ids|
  {
    if ids != [] {
      DfsVisitsNear(g, target, ids[0], visited, stack, candidates);
      DfsAllVisitsNear(g, target, ids[1..], Dfs(g, target, ids[0], |stack|, visited).1, stack, candidates);
    }
  }

  /** An id upstream of a candidate, but of no candidate within 32 steps, makes the search give up with a yes. */
  lemma FarIsRefused(g: Graph, target: nat, candidates: seq<nat>, c: nat, v: nat)
    requires c in candidates && Reaches(g, c, v) && !Near(g, candidates, v)
    ensures HasCyclicDependency(g, target, candidates)
  {
    if !HasCyclicDependency(g, target, candidates) {
      forall d | d in candidates ensures Leading(g, candidates, [], d) {
        assert [] + [d] == [d];
      }
      DfsAllVisits(g, target, candidates, 0, {});
      DfsAllVisitsNear(g, target, candidates, {}, [], candidates);
      var all := DfsAll(g, target, candidates, 0, {}).1;
      assert all - {} == all;
      var p :| IsPath(g, p) && p[0] == c && p[|p| - 1] == v;
      ClosedKeepsPaths(g, all, p);
    }
  }

  function Ids(n: nat): (ids: set<nat>)
    ensures |ids| == n && forall i :: i in ids <==> 1 <= i <= n
  {
    if n == 0 then {} else Ids(n - 1) + {n}
  }

  const CHAIN_END: nat := MAX_DEPTH + 2
  const BYSTANDER: nat := 100

  /** Tasks 1 to 34, each waiting for the next, and one that waits for nothing. */
  function LongChain(): Graph {
    var ids := Ids(CHAIN_END) + {BYSTANDER};
    map i | i in ids :: if i < CHAIN_END then [i + 1] else []
  }

  /** Paths along the chain climb one by one. */
  lemma {:induction false} ChainClimbs(p: seq<nat>)
    requires IsPath(LongChain(), p) && 1 <= p[0] <= CHAIN_END
    ensures p[|p| - 1] == p[0] + |p| - 1 <= CHAIN_END
  {
    if |p| > 1 {
      Tail(LongChain(), p);
      ChainClimbs(p[1..]);
    }
  }

  lemma {:induction false} ChainReaches(i: nat)
    requires 1 <= i <= CHAIN_END
    ensures Reaches(LongChain(), i, CHAIN_END)
    decreases CHAIN_END - i
  {
    if i == CHAIN_END {
      ReachesItself(LongChain(), i);
    } else {
      ChainReaches(i + 1);
      ReachesOver(LongChain(), i, i + 1, CHAIN_END);
    }
  }

  lemma ChainIsAcyclic()
    ensures Acyclic(LongChain())
    ensures forall i :: 1 <= i <= CHAIN_END ==> !Reaches(LongChain(), i, BYSTANDER)
  {
    hide Ids;
    var g := LongChain();
    forall i | 1 <= i <= CHAIN_END ensures !Reaches(g, i, BYSTANDER) {
      forall p | IsPath(g, p) && p[0] == i ensures p[|p| - 1] != BYSTANDER { ChainClimbs(p); }
    }
    forall a, d | a in g && d in g[a] ensures !Reaches(g, d, a) {
      forall p | IsPath(g, p) && p[0] == d ensures p[|p| - 1] != a { ChainClimbs(p); }
    }
  }

  lemma ChainIsRefused()
    ensures HasCyclicDependency(LongChain(), BYSTANDER, [1]) && CHAIN_END == 34
  {
    hide HasCyclicDependency, Ids;
    var g := LongChain();
    ChainReaches(1);
    forall p | IsPath(g, p) && p[0] in [1] && p[|p| - 1] == CHAIN_END ensures |p| > MAX_DEPTH + 1 { ChainClimbs(p); }
    hide LongChain;
    FarIsRefused(g, BYSTANDER, [1], 1, CHAIN_END);
  }

  lemma ChainIsSound()
    ensures Sound(Store(LongChain(), LongChain().Keys)) && BYSTANDER in LongChain()
  {
    hide Acyclic, Ids;
    ChainIsAcyclic();
  }

  /** A store in which the cap refuses an update that closes no cycle. */
  lemma CapRefusesLongChain()
    ensures CHAIN_END == 34
    ensures var s := Store(LongChain(), LongChain().Keys);
      && Sound(s) && BYSTANDER in s.tasks && !Enabled(s, Update(BYSTANDER, [1]))
      && Acyclic(s.tasks[BYSTANDER := Encoded([1])])
  {
    hide HasCyclicDependency, Acyclic, Sound, LongChain, Reaches;
    var g := LongChain();
    ChainIsAcyclic();
    ChainIsSound();
    ChainIsRefused();
    RewiringKeepsAcyclic(g, g[BYSTANDER := Encoded([1])], BYSTANDER);
  }

  lemma OneToSearch(g: Graph, target: nat, id: nat, depth: nat, visited: set<nat>)
    requires depth <= MAX_DEPTH + 1
    ensures DfsAll(g, target, [id], depth, visited) == Dfs(g, target, id, depth, visited)
  {
    hide Dfs;
    var (found, seen) := Dfs(g, target, id, depth, visited);
    assert [id][1..] == [];
    assert DfsAll(g, target, [], depth, seen) == (false, seen);
  }

  lemma ChainStep(id: nat, depth: nat, visited: set<nat>)
    requires 1 <= id <= CHAIN_END && depth <= MAX_DEPTH && id !in visited
    ensures Dfs(LongChain(), BYSTANDER, id, depth, visited) ==
      if id < CHAIN_END then Dfs(LongChain(), BYSTANDER, id + 1, depth + 1, visited + {id}) else (false, visited + {id})
  {
    hide Ids;
    if id < CHAIN_END {
      OneToSearch(LongChain(), BYSTANDER, id + 1, depth + 1, visited + {id});
    } else {
      assert DfsAll(LongChain(), BYSTANDER, [], depth + 1, visited + {id}) == (false, visited + {id});
    }
  }

  lemma ChainStops(id: nat, depth: nat, visited: set<nat>)
    requires 1 <= id <= CHAIN_END && depth <= MAX_DEPTH && id in visited
    ensures Dfs(LongChain(), BYSTANDER, id, depth, visited) == (false, visited)
  {
    assert visited + {id} == visited;
  }

  /** The search climbs the chain to its end, or to what it has visited before. */
  lemma {:induction false} ChainSearch(id: nat, depth: nat, visited: set<nat>, stop: nat)
    requires 1 <= id <= CHAIN_END && id <= stop <= CHAIN_END + 1 && depth + stop - id <= MAX_DEPTH
    requires (forall v :: id <= v < stop ==> v !in visited) && (stop <= CHAIN_END ==> stop in visited)
    ensures var (found, seen) := Dfs(LongChain(), BYSTANDER, id, depth, visited);
      !found && forall v :: v in seen <==> v in visited || id <= v < stop
    decreases stop - id
  {
    hide LongChain, Dfs;
    if id == stop {
      ChainStops(id, depth, visited);
    } else {
      ChainStep(id, depth, visited);
      if id < CHAIN_END {
        ChainSearch(id + 1, depth + 1, visited + {id}, stop);
      }
    }
  }

  /**
   * Between the two bounds the answer depends on the order of the candidates: no condition
   * on the graph and the set of candidates alone can be exact.
   */
  lemma CapDependsOnOrder()
    ensures !HasCyclicDependency(LongChain(), BYSTANDER, [20, 1])
        && HasCyclicDependency(LongChain(), BYSTANDER, [1, 20])
  {
    var g := LongChain();
    ChainSearch(20, 0, {}, CHAIN_END + 1);
    var seen := Dfs(g, BYSTANDER, 20, 0, {}).1;
    ChainSearch(1, 0, seen, 20);
    assert [20, 1][1..] == [1];
    OneToSearch(g, BYSTANDER, 1, 0, seen);
    ChainReaches(1);
    forall p | IsPath(g, p) && p[0] in [1] && p[|p| - 1] == CHAIN_END ensures |p| > MAX_DEPTH + 1 { ChainClimbs(p); }
    FarIsRefused(g, BYSTANDER, [1], 1, CHAIN_END);
    OneToSearch(g, BYSTANDER, 1, 0, {});
  }

  // ------------------------------------------------------------ accepted changes

  /** What is stored: no zeros, no duplicates, in order of first mention. */
  function Encoded(ids: seq<nat>): (r: seq<nat>)
    ensures forall id :: id in r <==> id in ids && id != 0
    ensures forall i, j :: 0 <= i < j < |r| ==> r[i] != r[j]
  {
    if ids == [] then []
    else
      var init, last := ids[..|ids| - 1], ids[|ids| - 1];
      assert forall id :: id in ids <==> id in init || id == last;
      if last == 0 || last in init then Encoded(init) else Encoded(init) + [last]
  }

  /** The dependency part of validateInput; 0 stands for a task not yet stored. */
  predicate Accepted(g: Graph, current: nat, deps: seq<nat>) {
    && (forall dep :: dep in deps && dep != 0 ==> dep != current && dep in g)
    && (current > 0 && deps != [] ==> !HasCyclicDependency(g, current, deps))
  }

  /**
   * A new task may wait for any stored tasks, however far those reach; an update, with at most
   * 32 other tasks, for those that do not wait, at any distance, for the task itself.
   */
  lemma AcceptedIff(g: Graph, current: nat, deps: seq<nat>)
    requires 0 !in g
    ensures current == 0 ==> (Accepted(g, current, deps) <==> forall d :: d in deps && d != 0 ==> d in g)
    ensures current > 0 && |g.Keys - {current}| <= 32 ==>
      (Accepted(g, current, deps) <==> forall d :: d in deps && d != 0 ==> d in g && !Reaches(g, d, current))
  {
    hide HasCyclicDependency;
    if current > 0 && |g.Keys - {current}| <= 32 {
      SearchIsExact(g, current, deps);
      ReachesItself(g, current);
      forall p | IsPath(g, p) && p[0] == 0 ensures |p| == 1 {
        if |p| > 1 { Tail(g, p); }
      }
    }
  }

  /** Tasks, and every id ever given to one. */
  datatype Store = Store(tasks: Graph, used: set<nat>)

  datatype Change = Create(id: nat, deps: seq<nat>) | Update(id: nat, deps: seq<nat>) | Delete(id: nat)

  predicate Enabled(s: Store, c: Change) {
    match c
    case Create(id, deps) => id > 0 && id !in s.used && Accepted(s.tasks, 0, deps)
    case Update(id, deps) => id in s.tasks && Accepted(s.tasks, id, deps)
    case Delete(id) => id in s.tasks
  }

  function Next(s: Store, c: Change): Store
    requires Enabled(s, c)
  {
    match c
    case Create(id, deps) => Store(s.tasks[id := Encoded(deps)], s.used + {id})
    case Update(id, deps) => Store(s.tasks[id := Encoded(deps)], s.used)
    case Delete(id) => Store(s.tasks - {id}, s.used)
  }

  ghost predicate Sound(s: Store) {
    && Acyclic(s.tasks) && s.tasks.Keys <= s.used && 0 !in s.used
    && (forall a, d :: a in s.tasks && d in s.tasks[a] ==> d in s.used)
  }

  /** Up to its first visit of `id`, a path does not depend on what `id` waits for. */
  lemma {:induction false} FirstVisit(g: Graph, h: Graph, id: nat, p: seq<nat>)
    requires IsPath(h, p) && p[|p| - 1] == id
    requires forall v :: v in h && v != id ==> v in g && g[v] == h[v]
    ensures Reaches(g, p[0], id)
  {
    if p[0] == id {
      ReachesItself(g, id);
    } else {
      var rest := p[1..];
      assert p[0] in h && p[1] in h[p[0]];
      forall i | 0 <= i < |rest| - 1 ensures rest[i] in h && rest[i + 1] in h[rest[i]] {
        assert p[i + 1] in h && p[i + 2] in h[p[i + 1]];
      }
      FirstVisit(g, h, id, rest);
      ReachesOver(g, p[0], p[1], id);
    }
  }

  lemma Join(g: Graph, p: seq<nat>, q: seq<nat>)
    requires IsPath(g, p) && IsPath(g, q) && p[|p| - 1] in g && q[0] in g[p[|p| - 1]]
    ensures IsPath(g, p + q) && (p + q)[0] == p[0] && (p + q)[|p + q| - 1] == q[|q| - 1]
  {
    var r := p + q;
    forall i | 0 <= i < |r| - 1 ensures r[i] in g && r[i + 1] in g[r[i]] {
      if i < |p| - 1 {
        assert p[i] in g && p[i + 1] in g[p[i]];
      } else if i >= |p| {
        assert q[i - |p|] in g && q[i - |p| + 1] in g[q[i - |p|]];
      }
    }
  }

  lemma SubPath(g: Graph, p: seq<nat>, lo: nat, hi: nat)
    requires IsPath(g, p) && lo < hi <= |p|
    ensures IsPath(g, p[lo..hi])
  {
    var q := p[lo..hi];
    forall i | 0 <= i < |q| - 1 ensures q[i] in g && q[i + 1] in g[q[i]] {
      assert p[lo + i] in g && p[lo + i + 1] in g[p[lo + i]];
    }
  }

  /** Giving one task dependencies that cannot reach it closes no cycle. */
  lemma RewiringKeepsAcyclic(g: Graph, h: Graph, id: nat)
    requires Acyclic(g)
    requires forall v :: v in h && v != id ==> v in g && g[v] == h[v]
    requires id in h ==> forall d :: d in h[id] ==> !Reaches(g, d, id)
    ensures Acyclic(h)
  {
    forall a, d | a in h && d in h[a] ensures !Reaches(h, d, a) {
      if Reaches(h, d, a) {
        var p :| IsPath(h, p) && p[0] == d && p[|p| - 1] == a;
        if a == id {
          FirstVisit(g, h, id, p);
        } else if k :| 0 <= k < |p| - 1 && p[k] == id {
          SubPath(h, p, k + 1, |p|);
          SubPath(h, p, 0, k + 1);
          Join(h, p[k + 1..], p[..k + 1]);
          FirstVisit(g, h, id, p[k + 1..] + p[..k + 1]);
        } else {
          forall i | 0 <= i < |p| - 1 ensures p[i] in g && p[i + 1] in g[p[i]] {
            assert p[i] in h && p[i + 1] in h[p[i]];
          }
          assert IsPath(g, p);
        }
      }
    }
  }

  /** Nothing that is stored leads to an id never used. */
  lemma FreshIsUnreachable(s: Store, d: nat, id: nat)
    requires Sound(s) && id !in s.used && d in s.used
    ensures !Reaches(s.tasks, d, id)
  {
    if Reaches(s.tasks, d, id) {
      var p :| IsPath(s.tasks, p) && p[0] == d && p[|p| - 1] == id;
      ClosedKeepsPaths(s.tasks, s.used, p);
    }
  }

  lemma ChangeKeepsSound(s: Store, c: Change)
    requires Sound(s) && Enabled(s, c)
    ensures Sound(Next(s, c))
  {
    var t := Next(s, c);
    match c {
      case Create(id, deps) =>
        forall d | d in t.tasks[id] ensures !Reaches(s.tasks, d, id) { FreshIsUnreachable(s, d, id); }
      case Update(id, deps) =>
        forall d | d in t.tasks[id] ensures !Reaches(s.tasks, d, id) { NoCycleFoundIsRight(s.tasks, id, deps, d); }
      case Delete(id) =>
    }
    RewiringKeepsAcyclic(s.tasks, t.tasks, c.id);
  }

  predicate IsRun(s: Store, cs: seq<Change>)
    decreases |cs|
  {
    cs == [] || (Enabled(s, cs[0]) && IsRun(Next(s, cs[0]), cs[1..]))
  }

  function RunTo(s: Store, cs: seq<Change>): Store
    requires IsRun(s, cs)
    decreases |cs|
  {
    if cs == [] then s else RunTo(Next(s, cs[0]), cs[1..])
  }

  /** Accepted creations, updates and deletions never store a dependency cycle. */
  lemma {:induction false} RunsStayAcyclic(s: Store, cs: seq<Change>)
    requires Sound(s) && IsRun(s, cs)
    ensures Sound(RunTo(s, cs)) && Acyclic(RunTo(s, cs).tasks)
    decreases |cs|
  {
    hide Enabled, Next, Acyclic;
    if cs != [] {
      ChangeKeepsSound(s, cs[0]);
      RunsStayAcyclic(Next(s, cs[0]), cs[1..]);
    }
  }

  /** A path either avoids `a`, or begins with one to `a` that needs nothing of what `a` waits for. */
  lemma {:induction false} UpToFirstVisit(g: Graph, h: Graph, a: nat, p: seq<nat>)
    requires IsPath(h, p) && forall v :: v in h && v != a ==> v in g && g[v] == h[v]
    ensures Reaches(g, p[0], p[|p| - 1]) || Reaches(g, p[0], a)
  {
    if p[0] == a || |p| == 1 {
      ReachesItself(g, p[0]);
    } else {
      Tail(h, p);
      UpToFirstVisit(g, h, a, p[1..]);
      if Reaches(g, p[1], a) { ReachesOver(g, p[0], p[1], a); } else { ReachesOver(g, p[0], p[1], p[|p| - 1]); }
    }
  }

  /** A path either avoids `a`, or ends with one from something `a` waits for that avoids it. */
  lemma {:induction false} FromLastVisit(g: Graph, h: Graph, a: nat, p: seq<nat>)
    requires IsPath(h, p) && p[|p| - 1] != a && forall v :: v in h && v != a ==> v in g && g[v] == h[v]
    ensures Reaches(g, p[0], p[|p| - 1]) || (a in h && exists d :: d in h[a] && Reaches(g, d, p[|p| - 1]))
  {
    if |p| == 1 {
      ReachesItself(g, p[0]);
    } else {
      Tail(h, p);
      FromLastVisit(g, h, a, p[1..]);
      if Reaches(g, p[1], p[|p| - 1]) && p[0] != a { ReachesOver(g, p[0], p[1], p[|p| - 1]); }
    }
  }

  lemma Tail(g: Graph, p: seq<nat>)
    requires IsPath(g, p) && |p| > 1
    ensures IsPath(g, p[1..]) && p[0] in g && p[1] in g[p[0]]
  {
    SubPath(g, p, 1, |p|);
  }

  /** A path survives a change to what `a` waits for if its start does not reach `a`. */
  lemma {:induction false} AvoidingPathStays(g: Graph, h: Graph, a: nat, p: seq<nat>)
    requires IsPath(g, p) && !Reaches(g, p[0], a) && forall v :: v in g && v != a ==> v in h && h[v] == g[v]
    ensures Reaches(h, p[0], p[|p| - 1])
  {
    ReachesItself(g, p[0]);
    if |p| == 1 {
      ReachesItself(h, p[0]);
    } else {
      Tail(g, p);
      if Reaches(g, p[1], a) { ReachesOver(g, p[0], p[1], a); }
      AvoidingPathStays(g, h, a, p[1..]);
      ReachesOver(h, p[0], p[1], p[|p| - 1]);
    }
  }

  /** Some new dependency reaches the other task in the graph as it was when both were checked. */
  ghost predicate Leads(g: Graph, deps: seq<nat>, to: nat) {
    exists d :: d in deps && Reaches(g, d, to)
  }

  /** Both updates, stored one after the other. */
  function BothStored(g: Graph, a: nat, da: seq<nat>, b: nat, db: seq<nat>): Graph {
    g[a := Encoded(da)][b := Encoded(db)]
  }

  lemma CrossingMakesCycle(g: Graph, a: nat, da: seq<nat>, b: nat, db: seq<nat>)
    requires a != b && a in g && b in g && 0 !in g && Accepted(g, a, da) && Accepted(g, b, db)
    requires Leads(g, da, b) && Leads(g, db, a)
    ensures !Acyclic(BothStored(g, a, da, b, db))
  {
    var h := BothStored(g, a, da, b, db);
    var d :| d in da && Reaches(g, d, b);
    var e :| e in db && Reaches(g, e, a);
    StoredCrossing(g, a, da, b, db, d);
    StoredCrossing(g, b, db, a, da, e);
    assert g[b := Encoded(db)][a := Encoded(da)] == h;
    ReachesOver(h, b, e, a);
    ReachTransitive(h, d, b, a);
  }

  /** The crossing path of one task is still there after both updates. */
  lemma StoredCrossing(g: Graph, a: nat, da: seq<nat>, b: nat, db: seq<nat>, d: nat)
    requires a != b && a in g && b in g && 0 !in g && Accepted(g, a, da) && d in da && Reaches(g, d, b)
    ensures var h := BothStored(g, a, da, b, db); d in h[a] && Reaches(h, d, b)
  {
    var h := BothStored(g, a, da, b, db);
    NoCycleFoundIsRight(g, a, da, d);
    var p :| IsPath(g, p) && p[0] == d && p[|p| - 1] == b;
    assert d != 0 by { if |p| > 1 { Tail(g, p); } }
    var k := g[a := Encoded(da)];
    AvoidingPathStays(g, k, a, p);
    var q :| IsPath(k, q) && q[0] == d && q[|q| - 1] == b;
    FirstVisit(h, k, b, q);
  }

  lemma ReachTransitive(g: Graph, x: nat, y: nat, z: nat)
    requires Reaches(g, x, y) && Reaches(g, y, z)
    ensures Reaches(g, x, z)
  {
    var p :| IsPath(g, p) && p[0] == x && p[|p| - 1] == y;
    ReachAlong(g, p, z);
  }

  lemma {:induction false} ReachAlong(g: Graph, p: seq<nat>, z: nat)
    requires IsPath(g, p) && Reaches(g, p[|p| - 1], z)
    ensures Reaches(g, p[0], z)
  {
    if |p| > 1 {
      Tail(g, p);
      ReachAlong(g, p[1..], z);
      ReachesOver(g, p[0], p[1], z);
    }
  }

  lemma CycleNeedsCrossing(g: Graph, a: nat, da: seq<nat>, b: nat, db: seq<nat>)
    requires Acyclic(g) && a != b && a in g && b in g && 0 !in g && Accepted(g, a, da) && Accepted(g, b, db)
    requires !Leads(g, da, b) || !Leads(g, db, a)
    ensures Acyclic(BothStored(g, a, da, b, db))
  {
    var k := g[a := Encoded(da)];
    forall d | d in Encoded(da) ensures !Reaches(g, d, a) { NoCycleFoundIsRight(g, a, da, d); }
    RewiringKeepsAcyclic(g, k, a);
    forall e | e in Encoded(db) ensures !Reaches(k, e, b) {
      NoCycleFoundIsRight(g, b, db, e);
      if Reaches(k, e, b) {
        var p :| IsPath(k, p) && p[0] == e && p[|p| - 1] == b;
        UpToFirstVisit(g, k, a, p);
        FromLastVisit(g, k, a, p);
      }
    }
    RewiringKeepsAcyclic(k, BothStored(g, a, da, b, db), b);
  }

  /**
   * Two updates of different stored tasks, both checked before either is stored, keep the
   * graph acyclic exactly if not each of them depends, at whatever distance, on the other's
   * task as the graph was.
   */
  lemma InterleavedUpdatesAcyclicIff(g: Graph, a: nat, da: seq<nat>, b: nat, db: seq<nat>)
    requires Acyclic(g) && a != b && a in g && b in g && 0 !in g && Accepted(g, a, da) && Accepted(g, b, db)
    ensures Acyclic(BothStored(g, a, da, b, db)) <==> !(Leads(g, da, b) && Leads(g, db, a))
  {
    if Leads(g, da, b) && Leads(g, db, a) {
      CrossingMakesCycle(g, a, da, b, db);
    } else {
      CycleNeedsCrossing(g, a, da, b, db);
    }
  }

  /** The smallest instance: each task is made to wait for the other. */
  lemma InterleavedUpdatesMakeCycle()
    ensures var g: Graph := map[1 := [], 2 := []];
      && Acyclic(g) && Accepted(g, 1, [2]) && Accepted(g, 2, [1])
      && !Acyclic(BothStored(g, 1, [2], 2, [1]))
  {
    var g: Graph := map[1 := [], 2 := []];
    ReachesItself(g, 1);
    ReachesItself(g, 2);
    assert 2 in [2] && 1 in [1];
    InterleavedUpdatesAcyclicIff(g, 1, [2], 2, [1]);
  }

  // ------------------------------------------------------------ cascades

  /** Tasks started one after the other, each because the one before it finished. */
  predicate Cascade(g: Graph, tasks: seq<nat>) {
    && (forall t :: t in tasks ==> t in g)
    && (forall i :: 0 <= i < |tasks| - 1 ==> tasks[i] in g[tasks[i + 1]])
  }

  lemma {:induction false} CascadeReaches(g: Graph, tasks: seq<nat>, i: nat, j: nat)
    requires Cascade(g, tasks) && i <= j < |tasks|
    ensures Reaches(g, tasks[j], tasks[i])
    decreases j - i
  {
    if i == j {
      ReachesItself(g, tasks[i]);
    } else {
      CascadeReaches(g, tasks, i, j - 1);
      assert tasks[j - 1] in g[tasks[j - 1 + 1]] && tasks[j] in tasks;
      ReachesOver(g, tasks[j], tasks[j - 1], tasks[i]);
    }
  }

  lemma {:induction false} DistinctFit(tasks: seq<nat>, all: set<nat>)
    requires (forall t :: t in tasks ==> t in all) && forall i, j :: 0 <= i < j < |tasks| ==> tasks[i] != tasks[j]
    ensures |tasks| <= |all|
  {
    if tasks != [] {
      var last := tasks[|tasks| - 1];
      assert last in tasks;
      forall t | t in tasks[..|tasks| - 1] ensures t in all - {last} { }
      DistinctFit(tasks[..|tasks| - 1], all - {last});
    }
  }

  /** A cascade never starts a task twice, and is at most as deep as there are tasks. */
  lemma CascadeIsBounded(g: Graph, tasks: seq<nat>)
    requires Acyclic(g) && Cascade(g, tasks)
    ensures |tasks| <= |g|
    ensures forall i, j :: 0 <= i < j < |tasks| ==> tasks[i] != tasks[j]
  {
    forall i, j | 0 <= i < j < |tasks| ensures tasks[i] != tasks[j] {
      CascadeReaches(g, tasks, i, j - 1);
      assert tasks[j - 1] in g[tasks[j - 1 + 1]] && tasks[j] in tasks;
    }
    DistinctFit(tasks, g.Keys);
    assert |g.Keys| == |g|;
  }

  // ------------------------------------------------------------ the service

  /** A stored task, as listed. */
  datatype Task = Task(id: nat, enabled: bool, deps: seq<nat>)

  /** The ids of the enabled tasks among these that wait for `upstream`. */
  function Dependents(items: seq<Task>, upstream: nat): seq<nat> {
    if items == [] then []
    else
      var last := items[|items| - 1];
      Dependents(items[..|items| - 1], upstream) + (if last.enabled && upstream in last.deps then [last.id] else [])
  }

  lemma {:induction false} DependentsAreDirect(items: seq<Task>, upstream: nat, id: nat)
    ensures id in Dependents(items, upstream)
        <==> exists t :: t in items && t.id == id && t.enabled && upstream in t.deps
  {
    if items != [] {
      var init, last := items[..|items| - 1], items[|items| - 1];
      DependentsAreDirect(init, upstream, id);
      assert forall t :: t in items <==> t in init || t == last;
    }
  }

  lemma DependentsMore(items: seq<Task>, upstream: nat)
    requires items != []
    ensures var init, last := items[..|items| - 1], items[|items| - 1];
      Dependents(items, upstream)
        == Dependents(init, upstream) + if last.enabled && upstream in last.deps then [last.id] else []
  {
  }

  /** Where each dependent stands in the list: in the same order, and none of them twice. */
  lemma {:induction false} DependentsInOrder(items: seq<Task>, upstream: nat) returns (at: seq<nat>)
    ensures |at| == |Dependents(items, upstream)|
    ensures forall i :: 0 <= i < |at| ==> at[i] < |items| && items[at[i]].id == Dependents(items, upstream)[i]
    ensures forall i, j :: 0 <= i < j < |at| ==> at[i] < at[j]
  {
    if items == [] {
      at := [];
    } else {
      var init, last := items[..|items| - 1], items[|items| - 1];
      at := DependentsInOrder(init, upstream);
      DependentsMore(items, upstream);
      hide Dependents;
      assert forall i :: 0 <= i < |at| ==> items[at[i]] == init[at[i]];
      if last.enabled && upstream in last.deps {
        at := at + [|init|];
      }
    }
  }

  method TriggerDependents(items: seq<Task>, upstream: nat) returns (triggers: seq<nat>)
    ensures triggers == Dependents(items, upstream)
    ensures forall id :: id in triggers <==> exists t :: t in items && t.id == id && t.enabled && upstream in t.deps
    ensures (forall i, j :: 0 <= i < j < |items| ==> items[i].id != items[j].id) ==>
      forall i, j :: 0 <= i < j < |triggers| ==> triggers[i] != triggers[j]
  {
    triggers := [];
    for i := 0 to |items|
      invariant triggers == Dependents(items[..i], upstream)
    {
      var item := items[i];
      assert items[..i + 1][..i] == items[..i];
      if !item.enabled {
        continue;
      }
      for j := 0 to |item.deps|
        invariant upstream !in item.deps[..j]
      {
        if item.deps[j] == upstream {
          triggers := triggers + [item.id];
          break;
        }
      }
    }
    assert items[..|items|] == items;
    var _ := DependentsInOrder(items, upstream);
    forall id ensures id in triggers <==> exists t :: t in items && t.id == id && t.enabled && upstream in t.deps {
      DependentsAreDirect(items, upstream, id);
    }
  }

  method EncodeIds(ids: seq<nat>) returns (r: seq<nat>)
    ensures r == Encoded(ids)
  {
    var seen: set<nat> := {};
    r := [];
    for i := 0 to |ids|
      invariant r == Encoded(ids[..i]) && forall id :: id in seen <==> id in r
    {
      assert ids[..i + 1][..i] == ids[..i];
      if ids[i] == 0 || ids[i] in seen {
        continue;
      }
      seen := seen + {ids[i]};
      r := r + [ids[i]];
    }
    assert ids[..|ids|] == ids;
  }

  /** One search, with the visited set all its branches share. */
  class CycleSearch {
    const tasks: Graph
    const target: nat
    var visited: set<nat>

    constructor (tasks: Graph, target: nat)
      ensures this.tasks == tasks && this.target == target && visited == {}
    {
      this.tasks, this.target, visited := tasks, target, {};
    }

    method Visit(id: nat, depth: nat) returns (found: bool)
      requires depth <= MAX_DEPTH + 1
      modifies this
      ensures found == Dfs(tasks, target, id, depth, old(visited)).0
      ensures !found ==> visited == Dfs(tasks, target, id, depth, old(visited)).1
      decreases MAX_DEPTH + 1 - depth
    {
      if depth > MAX_DEPTH { return true; }
      if id == target { return true; }
      if id in visited { return false; }
      visited := visited + {id};
      if id !in tasks { return false; }
      var deps := tasks[id];
      for i := 0 to |deps|
        invariant Dfs(tasks, target, id, depth, old(visited)) == DfsAll(tasks, target, deps[i..], depth + 1, visited)
      {
        assert deps[i..][1..] == deps[i + 1..];
        found := Visit(deps[i], depth + 1);
        if found { return; }
      }
      return false;
    }

    method Run(candidates: seq<nat>) returns (found: bool)
      requires visited == {}
      modifies this
      ensures found == HasCyclicDependency(tasks, target, candidates)
    {
      for i := 0 to |candidates|
        invariant HasCyclicDependency(tasks, target, candidates) == DfsAll(tasks, target, candidates[i..], 0, visited).0
      {
        assert candidates[i..][1..] == candidates[i + 1..];
        found := Visit(candidates[i], 0);
        if found { return; }
      }
      return false;
    }
  }
}
