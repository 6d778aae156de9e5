/** The sliding-window limiter per client address, with in-place compaction and garbage collection. */
module Limiter {
  /** One call that was answered; gc leaves no trace here. */
  datatype Answer = Answer(ip: string, now: int, allowed: bool)

  // ------------------------------------------------------------ reference

  /** The times after a cutoff. */
  function Recent(times: seq<int>, cutoff: int): seq<int> {
    if times == [] then []
    else
      var last := times[|times| - 1];
      Recent(times[..|times| - 1], cutoff) + (if last > cutoff then [last] else [])
  }

  /** When calls of this address were allowed. */
  function Times(history: seq<Answer>, ip: string): seq<int> {
    if history == [] then []
    else
      var last := history[|history| - 1];
      Times(history[..|history| - 1], ip) + (if last.ip == ip && last.allowed then [last.now] else [])
  }

  /** A call is allowed if fewer than `limit` earlier ones of its address were in its window. */
  predicate Faithful(history: seq<Answer>, limit: int, window: int) {
    history == [] ||
      var before, last := history[..|history| - 1], history[|history| - 1];
      && Faithful(before, limit, window)
      && (before != [] ==> before[|before| - 1].now <= last.now)
      && last.allowed == (|Recent(Times(before, last.ip), last.now - window)| < limit)
  }

  // ------------------------------------------------------------ what the reference guarantees

  function InWindow(times: seq<int>, t: int, window: int): seq<int> {
    if times == [] then []
    else
      var last := times[|times| - 1];
      InWindow(times[..|times| - 1], t, window) + (if t - window < last <= t then [last] else [])
  }

  lemma {:induction false} InWindowIsRecent(times: seq<int>, t: int, window: int, now: int)
    requires now <= t
    ensures |InWindow(times, t, window)| <= |Recent(times, now - window)|
  {
    if times != [] { InWindowIsRecent(times[..|times| - 1], t, window, now); }
  }

  lemma InWindowSnoc(times: seq<int>, now: int, t: int, window: int)
    ensures InWindow(times + [now], t, window) == InWindow(times, t, window)
        + (if t - window < now <= t then [now] else [])
  {
    assert (times + [now])[..|times|] == times;
  }

  /** Over the whole history no window, wherever it ends, holds more than `limit` allowed calls of an address. */
  lemma {:induction false} WindowBound(history: seq<Answer>, limit: int, window: int, ip: string, t: int)
    requires Faithful(history, limit, window)
    ensures |InWindow(Times(history, ip), t, window)| <= if limit > 0 then limit else 0
  {
    if history != [] {
      var before, last := history[..|history| - 1], history[|history| - 1];
      WindowBound(before, limit, window, ip, t);
      if last.ip == ip && last.allowed {
        InWindowSnoc(Times(before, ip), last.now, t, window);
        if last.now <= t { InWindowIsRecent(Times(before, ip), t, window, last.now); }
      } else {
        assert Times(history, ip) == Times(before, ip);
      }
    }
  }

  predicate SameCall(a: Answer, b: Answer) {
    a.ip == b.ip && a.now == b.now
  }

  /** The answers follow from the calls and their times alone, so nothing in between can change them. */
  lemma {:induction false} AnswersFollowFromCalls(h: seq<Answer>, g: seq<Answer>, limit: int, window: int)
    requires Faithful(h, limit, window) && Faithful(g, limit, window) && |h| == |g|
    requires forall k :: 0 <= k < |h| ==> SameCall(h[k], g[k])
    ensures h == g
  {
    hide Recent, Times;
    if h != [] {
      var n := |h| - 1;
      AnswersFollowFromCalls(h[..n], g[..n], limit, window);
      assert SameCall(h[n], g[n]);
      assert h[n].allowed == g[n].allowed;
      hide Faithful;
      assert h == h[..n] + [h[n]] && g == g[..n] + [g[n]];
    }
  }

  /** What counts against a call: the earlier allowed calls of its address after the cutoff. */
  function Counting(history: seq<Answer>, ip: string, cutoff: int): set<nat> {
    set k | 0 <= k < |history| && history[k].ip == ip && history[k].allowed && history[k].now > cutoff
  }

  lemma {:induction false} RecentCounts(history: seq<Answer>, ip: string, cutoff: int)
    ensures |Recent(Times(history, ip), cutoff)| == |Counting(history, ip, cutoff)|
  {
    if history == [] {
      assert Counting(history, ip, cutoff) == {};
    } else {
      var n := |history| - 1;
      var before, last := history[..n], history[n];
      RecentCounts(before, ip, cutoff);
      assert history == before + [last];
      TimesSnoc(before, last, ip);
      RecentSnoc(Times(before, ip), last.now, cutoff);
      hide Recent, Times;
      assert Times(before, ip) + [] == Times(before, ip);
      var counts := last.ip == ip && last.allowed && last.now > cutoff;
      assert Counting(history, ip, cutoff) == Counting(before, ip, cutoff) + if counts then {n} else {};
    }
  }

  // ------------------------------------------------------------ forgetting what no later call asks for

  lemma {:induction false} RecentTwice(times: seq<int>, cutoff: int, later: int)
    requires cutoff <= later
    ensures Recent(Recent(times, cutoff), later) == Recent(times, later)
  {
    if times != [] {
      var init, last := times[..|times| - 1], times[|times| - 1];
      RecentTwice(init, cutoff, later);
      if last > cutoff {
        assert Recent(times, cutoff)[..|Recent(times, cutoff)| - 1] == Recent(init, cutoff);
      } else {
        assert Recent(times, cutoff) == Recent(init, cutoff);
      }
    }
  }

  lemma RecentSnoc(times: seq<int>, now: int, cutoff: int)
    ensures Recent(times + [now], cutoff) == Recent(times, cutoff) + (if now > cutoff then [now] else [])
  {
    assert (times + [now])[..|times|] == times;
  }

  lemma TimesSnoc(history: seq<Answer>, last: Answer, ip: string)
    ensures Times(history + [last], ip) == Times(history, ip)
        + (if last.ip == ip && last.allowed then [last.now] else [])
  {
    assert (history + [last])[..|history|] == history;
  }

  lemma FaithfulSnoc(history: seq<Answer>, last: Answer, limit: int, window: int)
    requires Faithful(history, limit, window) && (history != [] ==> history[|history| - 1].now <= last.now)
    requires last.allowed == (|Recent(Times(history, last.ip), last.now - window)| < limit)
    ensures Faithful(history + [last], limit, window)
  {
    hide Recent, Times;
    assert (history + [last])[..|history|] == history;
  }

  /** What is kept for an address answers every call from now on as all its allowed calls would. */
  predicate Current(kept: seq<int>, all: seq<int>, cutoff: int) {
    Recent(kept, cutoff) == Recent(all, cutoff)
  }

  lemma CurrentLater(kept: seq<int>, all: seq<int>, cutoff: int, later: int)
    requires Current(kept, all, cutoff) && cutoff <= later
    ensures Current(kept, all, later)
  {
    RecentTwice(kept, cutoff, later);
    RecentTwice(all, cutoff, later);
  }

  lemma CompactedIsCurrent(kept: seq<int>, all: seq<int>, cutoff: int, now: int)
    requires Current(kept, all, cutoff)
    ensures Recent(kept, cutoff) == Recent(all, cutoff)
    ensures Current(Recent(kept, cutoff), all, cutoff) && Current(Recent(kept, cutoff) + [now], all + [now], cutoff)
  {
    RecentTwice(kept, cutoff, cutoff);
    RecentSnoc(Recent(kept, cutoff), now, cutoff);
    RecentSnoc(all, now, cutoff);
  }

  lemma {:induction false} NoneRecent(times: seq<int>, cutoff: int)
    requires forall k :: 0 <= k < |times| ==> times[k] <= cutoff
    ensures Recent(times, cutoff) == []
  {
    if times != [] { NoneRecent(times[..|times| - 1], cutoff); }
  }

  function Kept(contents: map<string, seq<int>>, ip: string): seq<int> {
    if ip in contents then contents[ip] else []
  }

  /** What is kept for every address is enough for any call whose window starts at the cutoff or later. */
  ghost predicate Sufficient(contents: map<string, seq<int>>, history: seq<Answer>, cutoff: int) {
    forall ip :: Current(Kept(contents, ip), Times(history, ip), cutoff)
  }

  lemma SufficientLater(contents: map<string, seq<int>>, history: seq<Answer>, cutoff: int, later: int)
    requires Sufficient(contents, history, cutoff) && cutoff <= later
    ensures Sufficient(contents, history, later)
  {
    hide Current, Kept, Times;
    forall ip { CurrentLater(Kept(contents, ip), Times(history, ip), cutoff, later); }
  }

  /** Answering a call from the compacted times of its address keeps them sufficient. */
  lemma AnsweringKeepsSufficient(contents: map<string, seq<int>>, history: seq<Answer>, a: Answer, cutoff: int)
    requires Sufficient(contents, history, cutoff)
    ensures var kept := Recent(Kept(contents, a.ip), cutoff);
      && kept == Recent(Times(history, a.ip), cutoff)
      && Sufficient(contents[a.ip := if a.allowed then kept + [a.now] else kept], history + [a], cutoff)
  {
    hide Recent, Times;
    var kept := Recent(Kept(contents, a.ip), cutoff);
    assert Current(Kept(contents, a.ip), Times(history, a.ip), cutoff);
    CompactedIsCurrent(Kept(contents, a.ip), Times(history, a.ip), cutoff, a.now);
    var after := contents[a.ip := if a.allowed then kept + [a.now] else kept];
    forall ip ensures Current(Kept(after, ip), Times(history + [a], ip), cutoff) {
      TimesSnoc(history, a, ip);
      assert Times(history, ip) + [] == Times(history, ip);
      assert Current(Kept(contents, ip), Times(history, ip), cutoff);
    }
  }

  predicate Stale(times: seq<int>, cutoff: int) {
    forall k :: 0 <= k < |times| ==> times[k] <= cutoff
  }

  function Collected(contents: map<string, seq<int>>, cutoff: int): map<string, seq<int>> {
    map ip | ip in contents && !Stale(contents[ip], cutoff) :: contents[ip]
  }

  /** An address stays exactly if one of its times is after the cutoff. */
  lemma CollectedExactly(contents: map<string, seq<int>>, cutoff: int)
    ensures forall ip :: ip in Collected(contents, cutoff) <==>
      ip in contents && exists k :: 0 <= k < |contents[ip]| && contents[ip][k] > cutoff
    ensures forall ip :: ip in Collected(contents, cutoff) ==> Collected(contents, cutoff)[ip] == contents[ip]
  {
  }

  /** Forgetting addresses whose times have all expired loses nothing. */
  lemma CollectingKeepsSufficient(contents: map<string, seq<int>>, history: seq<Answer>, cutoff: int)
    requires Sufficient(contents, history, cutoff)
    ensures Sufficient(Collected(contents, cutoff), history, cutoff)
  {
    hide Times;
    forall ip ensures Current(Kept(Collected(contents, cutoff), ip), Times(history, ip), cutoff) {
      assert Current(Kept(contents, ip), Times(history, ip), cutoff);
      if ip in contents && Stale(contents[ip], cutoff) { NoneRecent(contents[ip], cutoff); }
    }
  }

  /** The limiter's state: what it keeps suffices for the history it stands for, up to the clock. */
  ghost predicate Honest(contents: map<string, seq<int>>, history: seq<Answer>, limit: int, window: int, clock: int) {
    && Faithful(history, limit, window)
    && (history != [] ==> history[|history| - 1].now <= clock)
    && Sufficient(contents, history, clock - window)
  }

  lemma AllowingIsHonest(contents: map<string, seq<int>>, history: seq<Answer>, limit: int, window: int, clock: int,
                         ip: string, now: int, allowed: bool)
    requires Honest(contents, history, limit, window, clock) && clock <= now
    requires allowed == (|Recent(Kept(contents, ip), now - window)| < limit)
    ensures allowed == (|Recent(Times(history, ip), now - window)| < limit)
    ensures var kept := Recent(Kept(contents, ip), now - window);
      Honest(contents[ip := if allowed then kept + [now] else kept], history + [Answer(ip, now, allowed)], limit,
          window, now)
  {
    hide Recent, Times, Faithful, Current, Sufficient, Kept;
    SufficientLater(contents, history, clock - window, now - window);
    AnsweringKeepsSufficient(contents, history, Answer(ip, now, allowed), now - window);
    FaithfulSnoc(history, Answer(ip, now, allowed), limit, window);
  }

  lemma CollectingIsHonest(contents: map<string, seq<int>>, history: seq<Answer>, limit: int, window: int, clock: int,
                           now: int)
    requires Honest(contents, history, limit, window, clock) && clock <= now
    ensures Honest(Collected(contents, now - window), history, limit, window, now)
  {
    hide Recent, Times, Faithful, Current, Sufficient, Kept, Collected;
    SufficientLater(contents, history, clock - window, now - window);
    CollectingKeepsSufficient(contents, history, now - window);
  }

  // ------------------------------------------------------------ the limiter

  /** A slice: the first `len` elements of its backing array. */
  datatype Slice = Slice(data: array<int>, len: nat)

  lemma NextOf(times: seq<int>, i: nat)
    requires i < |times|
    ensures times[i..][0] == times[i] && times[i..][1..] == times[i + 1..] && times[..i + 1] == times[..i] + [times[i]]
  {
  }

  /** Appends to the first `kept` elements of the array, where they have been read already. */
  method AppendKept(data: array<int>, kept: nat, i: nat, len: nat, t: int)
    requires kept <= i < len <= data.Length
    modifies data
    ensures data[..kept + 1] == old(data[..kept]) + [t]
    ensures data[i + 1..len] == old(data[i + 1..len])
  {
    data[kept] := t;
  }

  /** Drops what is not after the cutoff, writing into the same array; the result is a filter. */
  method Compact(data: array<int>, len: nat, cutoff: int) returns (kept: nat)
    requires len <= data.Length
    modifies data
    ensures kept <= len && data[..kept] == Recent(old(data[..len]), cutoff)
  {
    ghost var before := data[..len];
    assert Recent([], cutoff) == [];
    hide Recent;
    kept := 0;
    var i := 0;
    assert before[..0] == [];
    while i < len
      invariant 0 <= kept <= i <= len
      invariant data[i..len] == before[i..]
      invariant data[..kept] == Recent(before[..i], cutoff)
    {
      var t := data[i];
      NextOf(before, i);
      assert t == data[i..len][0] && data[i + 1..len] == data[i..len][1..];
      RecentSnoc(before[..i], t, cutoff);
      if t > cutoff {
        AppendKept(data, kept, i, len, t);
        kept := kept + 1;
      }
      i := i + 1;
    }
    assert before[..len] == before;
  }

  /** Part way through a collection: these addresses are still to be looked at. */
  ghost predicate Collecting(now: map<string, Slice>, was: map<string, Slice>, times: map<string, seq<int>>,
                             keys: set<string>, cutoff: int)
  {
    && keys <= now.Keys <= was.Keys == times.Keys
    && (forall k :: k in now ==> now[k] == was[k])
    && (forall k :: k in was && k !in keys ==> (k in now <==> !Stale(times[k], cutoff)))
  }

  lemma NothingCollected(was: map<string, Slice>, times: map<string, seq<int>>, cutoff: int)
    requires times.Keys == was.Keys
    ensures Collecting(was, was, times, was.Keys, cutoff)
  {
  }

  lemma CollectOne(now: map<string, Slice>, was: map<string, Slice>, times: map<string, seq<int>>, keys: set<string>,
                   k: string, cutoff: int)
    requires Collecting(now, was, times, keys, cutoff) && k in keys
    ensures k in now && k in times && k in was && now[k] == was[k]
    ensures Collecting(if Stale(times[k], cutoff) then now - {k} else now, was, times, keys - {k}, cutoff)
  {
    hide Stale;
  }

  lemma AllCollected(now: map<string, Slice>, was: map<string, Slice>, times: map<string, seq<int>>, cutoff: int)
    requires Collecting(now, was, times, {}, cutoff)
    ensures forall k :: k in now <==> k in Collected(times, cutoff)
    ensures forall k :: k in now ==> k in was && now[k] == was[k]
  {
    hide Stale;
  }

  class IpLimiter {
    const limit: int
    const window: int
    var events: map<string, Slice>
    ghost var clock: int
    ghost var history: seq<Answer>

    ghost function Arrays(): set<array<int>>
      reads `events
    {
      set ip | ip in events :: events[ip].data
    }

    /** Each address has a backing array of its own. */
    ghost predicate Separate()
      reads `events
    {
      && (forall ip :: ip in events ==> events[ip].len <= events[ip].data.Length)
      && (forall ip, other :: ip in events && other in events && events[ip].data == events[other].data ==> ip == other)
    }

    ghost function Contents(): map<string, seq<int>>
      reads `events, Arrays()
      requires Separate()
    {
      map ip | ip in events :: events[ip].data[..events[ip].len]
    }

    ghost predicate Valid()
      reads this, Arrays()
    {
      && Separate()
      && Honest(Contents(), history, limit, window, clock)
    }

    constructor (limit: int, window: int)
      ensures Valid() && history == [] && this.limit == limit && this.window == window && events == map[]
    {
      this.limit, this.window := limit, window;
      events, clock, history := map[], 0, [];
    }

    /** Counts a call if its window has room, and answers whether it does. */
    method Allow(ip: string, now: int) returns (allowed: bool)
      requires Valid() && clock <= now
      modifies this, Arrays()
      ensures Valid() && clock == now
      ensures history == old(history) + [Answer(ip, now, allowed)]
      ensures allowed == (|Recent(Times(old(history), ip), now - window)| < limit)
      ensures allowed <==> |Counting(old(history), ip, now - window)| < limit
    {
      hide Recent, Times, Honest, Kept;
      allowed := Admit(ip, now);
      RecentCounts(history, ip, now - window);
      AllowingIsHonest(old(Contents()), history, limit, window, clock, ip, now, allowed);
      ghost var after := Contents();
      history := history + [Answer(ip, now, allowed)];
      clock := now;
      assert Contents() == after;
    }

    method Admit(ip: string, now: int) returns (allowed: bool)
      requires Separate()
      modifies `events, Arrays()
      ensures Separate()
      ensures var kept := Recent(Kept(old(Contents()), ip), now - window);
        && allowed == (|kept| < limit)
        && Contents() == old(Contents())[ip := if allowed then kept + [now] else kept]
    {
      hide Recent;
      ghost var before := Contents();
      var slice := Find(ip);
      hide Kept;
      allowed, slice := Count(slice, now);
      ghost var between := Contents();
      ghost var times := slice.data[..slice.len];
      assert between.Keys == before.Keys && forall k :: k in before && k != ip ==> between[k] == before[k];
      Put(ip, slice);
      SameButOne(before, between, ip, times);
    }

    static lemma SameButOne(before: map<string, seq<int>>, between: map<string, seq<int>>, ip: string, times: seq<int>)
      requires between.Keys == before.Keys && forall k :: k in before && k != ip ==> between[k] == before[k]
      ensures between[ip := times] == before[ip := times]
    {
    }

    /** The slice of an address, or a new empty one. */
    method Find(ip: string) returns (slice: Slice)
      requires Separate()
      ensures slice.len <= slice.data.Length && slice.data[..slice.len] == Kept(Contents(), ip)
      ensures if ip in events then slice == events[ip] else fresh(slice.data)
    {
      if ip in events {
        return events[ip];
      }
      var none := new int[0];
      return Slice(none, 0);
    }

    method Put(ip: string, slice: Slice)
      requires Separate() && slice.len <= slice.data.Length
      requires forall k :: k in events && k != ip ==> events[k].data != slice.data
      modifies `events
      ensures Separate() && Contents() == old(Contents())[ip := slice.data[..slice.len]]
    {
      events := events[ip := slice];
    }

    /** Compacts one address's slice and, if there is room, adds the call. */
    method Count(from: Slice, now: int) returns (allowed: bool, slice: Slice)
      requires from.len <= from.data.Length
      modifies from.data
      ensures var kept := Recent(old(from.data[..from.len]), now - window);
        && allowed == (|kept| < limit) && slice.len <= slice.data.Length
        && slice.data[..slice.len] == if allowed then kept + [now] else kept
      ensures slice.data == from.data || fresh(slice.data)
    {
      hide Recent;
      var kept := Compact(from.data, from.len, now - window);
      allowed := kept < limit;
      if allowed {
        slice := Append(from.data, kept, now);
      } else {
        slice := Slice(from.data, kept);
      }
    }

    /** Adds one element after the first `len`, in place if there is room. */
    static method Append(data: array<int>, len: nat, x: int) returns (slice: Slice)
      requires len <= data.Length
      modifies data
      ensures slice.len == len + 1 <= slice.data.Length && slice.data[..len + 1] == old(data[..len]) + [x]
      ensures slice.data == data || fresh(slice.data)
    {
      if len < data.Length {
        data[len] := x;
        return Slice(data, len + 1);
      }
      var grown := new int[2 * len + 1];
      forall i | 0 <= i < len { grown[i] := data[i]; }
      grown[len] := x;
      return Slice(grown, len + 1);
    }

    static method Expired(slice: Slice, cutoff: int) returns (stale: bool)
      requires slice.len <= slice.data.Length
      ensures stale <==> Stale(slice.data[..slice.len], cutoff)
    {
      var i := 0;
      while i < slice.len
        invariant 0 <= i <= slice.len
        invariant forall j :: 0 <= j < i ==> slice.data[j] <= cutoff
      {
        if slice.data[i] > cutoff {
          assert slice.data[..slice.len][i] > cutoff;
          return false;
        }
        i := i + 1;
      }
      return true;
    }

    /** Deletes every address whose times have all expired. */
    method DropExpired(cutoff: int, ghost times: map<string, seq<int>>)
      requires Separate() && times == Contents()
      modifies `events
      ensures forall k :: k in events <==> k in Collected(times, cutoff)
      ensures forall k :: k in events ==> k in old(events) && events[k] == old(events)[k]
    {
      hide Stale, Collecting;
      ghost var was := events;
      var keys := events.Keys;
      NothingCollected(was, times, cutoff);
      while keys != {}
        invariant Collecting(events, was, times, keys, cutoff)
        decreases keys
      {
        var k :| k in keys;
        CollectOne(events, was, times, keys, k, cutoff);
        assert was[k].data[..was[k].len] == times[k];
        var stale := Expired(events[k], cutoff);
        events := if stale then events - {k} else events;
        keys := keys - {k};
      }
      AllCollected(events, was, times, cutoff);
    }

    method Collect(cutoff: int)
      requires Separate()
      modifies `events
      ensures Separate() && Contents() == Collected(old(Contents()), cutoff)
    {
      hide Stale;
      DropExpired(cutoff, Contents());
    }

    /** Forgets addresses with no time left in the window; no later answer changes. */
    method Gc(now: int)
      requires Valid() && clock <= now
      modifies `events, `clock
      ensures Valid() && clock == now && history == old(history)
      ensures Contents() == Collected(old(Contents()), now - window)
      ensures forall ip :: ip in events <==>
        ip in old(events) && exists k :: 0 <= k < |old(Contents())[ip]| && old(Contents())[ip][k] > now - window
      ensures forall ip :: ip in events ==> Contents()[ip] == old(Contents())[ip]
    {
      hide Honest, Collected;
      Collect(now - window);
      CollectedExactly(old(Contents()), now - window);
      CollectingIsHonest(old(Contents()), history, limit, window, clock, now);
      ghost var after := Contents();
      clock := now;
      assert Contents() == after;
      assert forall ip :: ip in events <==> ip in Contents();
    }
  }
}
