/** Splitting streamed command output into log lines, over a buffer that is shifted in place. */
module LineWriter {
  import opened ByteStrings

  const NEWLINE: byte := 10

  // ------------------------------------------------------------ lines of a stream

  /** What follows the last newline. */
  function Rest(s: Bytes): Bytes {
    if s == [] || s[|s| - 1] == NEWLINE then [] else Rest(s[..|s| - 1]) + [s[|s| - 1]]
  }

  /** The lines a newline ends, without it. */
  function Ended(s: Bytes): seq<Bytes> {
    if s == [] then []
    else
      var init := s[..|s| - 1];
      if s[|s| - 1] == NEWLINE then Ended(init) + [Rest(init)] else Ended(init)
  }

  /** All lines, the last one possibly unterminated. */
  function Lines(s: Bytes): seq<Bytes> {
    Ended(s) + [Rest(s)]
  }

  function Unlines(lines: seq<Bytes>): Bytes
    requires lines != []
  {
    if |lines| == 1 then lines[0] else Unlines(lines[..|lines| - 1]) + [NEWLINE] + lines[|lines| - 1]
  }

  predicate OneLine(line: Bytes) {
    NEWLINE !in line
  }

  lemma UnlinesSnoc(lines: seq<Bytes>, last: Bytes)
    requires lines != []
    ensures Unlines(lines + [last]) == Unlines(lines) + [NEWLINE] + last
  {
    assert (lines + [last])[..|lines|] == lines;
  }

  lemma UnlinesLonger(lines: seq<Bytes>, last: Bytes, more: Bytes)
    ensures Unlines(lines + [last + more]) == Unlines(lines + [last]) + more
  {
    hide Unlines;
    if lines == [] {
      UnlinesOne(last);
      UnlinesOne(last + more);
      assert lines + [last] == [last] && lines + [last + more] == [last + more];
    } else {
      UnlinesSnoc(lines, last);
      UnlinesSnoc(lines, last + more);
    }
  }

  lemma UnlinesOne(line: Bytes)
    ensures Unlines([line]) == line
  {
  }

  /** One byte more ends the last line or makes it longer. */
  lemma LinesSnoc(s: Bytes, b: byte)
    ensures Lines(s + [b]) == if b == NEWLINE then Lines(s) + [[]] else Ended(s) + [Rest(s) + [b]]
  {
    assert (s + [b])[..|s|] == s;
  }

  /** Lines are what lies between newlines: joined by newlines they are the stream again. */
  lemma {:induction false} LinesJoin(s: Bytes)
    ensures Unlines(Lines(s)) == s
    ensures forall line :: line in Lines(s) ==> OneLine(line) && 10 !in line
  {
    hide Unlines, Rest, Ended;
    if s == [] {
      NoLines();
      UnlinesOne([]);
      assert Lines(s) == [[]];
    } else {
      var init, last := s[..|s| - 1], s[|s| - 1];
      assert init + [last] == s;
      LinesJoin(init);
      LinesSnoc(init, last);
      if last == NEWLINE {
        UnlinesSnoc(Lines(init), []);
        assert init + [NEWLINE] + [] == s;
      } else {
        UnlinesLonger(Ended(init), Rest(init), [last]);
        assert Rest(init) in Lines(init);
      }
    }
  }

  lemma NoLines()
    ensures Rest([]) == [] && Ended([]) == []
  {
  }

  /** A stretch without newline only makes the last line longer. */
  lemma {:induction false} RestGrows(s: Bytes, t: Bytes)
    requires OneLine(t)
    ensures Ended(s + t) == Ended(s) && Rest(s + t) == Rest(s) + t
  {
    if t == [] {
      assert s + t == s;
    } else {
      var init := t[..|t| - 1];
      RestGrows(s, init);
      assert (s + t)[..|s + t| - 1] == s + init;
      assert t[|t| - 1] in t;
      assert init + [t[|t| - 1]] == t;
    }
  }

  lemma LineEnds(s: Bytes, t: Bytes)
    requires OneLine(t)
    ensures Ended(s + t + [NEWLINE]) == Ended(s) + [Rest(s) + t] && Rest(s + t + [NEWLINE]) == []
  {
    RestGrows(s, t);
    assert (s + t + [NEWLINE])[..|s + t|] == s + t;
  }

  /** Nothing else splits a stream into newline-free lines. */
  lemma {:induction false} LinesUnique(lines: seq<Bytes>)
    requires lines != [] && forall line :: line in lines ==> OneLine(line)
    ensures Lines(Unlines(lines)) == lines
  {
    hide Rest, Ended, OneLine;
    var init, last := lines[..|lines| - 1], lines[|lines| - 1];
    assert lines == init + [last];
    if init == [] {
      NoLines();
      RestGrows([], last);
      assert [] + last == last;
    } else {
      LinesUnique(init);
      var s := Unlines(init);
      EmptyLineEnds(s);
      RestGrows(s + [NEWLINE], last);
      assert [] + last == last;
      assert Ended(s) + [Rest(s)] == init;
    }
  }

  lemma EmptyLineEnds(s: Bytes)
    ensures Ended(s + [NEWLINE]) == Lines(s) && Rest(s + [NEWLINE]) == []
  {
    LineEnds(s, []);
    assert s + [] == s && Rest(s) + [] == Rest(s);
  }

  /** A stream is what was ended before its last line, and that line. */
  lemma {:induction false} RestIsSuffix(s: Bytes)
    ensures |Rest(s)| <= |s| && s == s[..|s| - |Rest(s)|] + Rest(s) && OneLine(Rest(s))
    ensures Rest(s[..|s| - |Rest(s)|]) == [] && Ended(s[..|s| - |Rest(s)|]) == Ended(s)
  {
    if s == [] || s[|s| - 1] == NEWLINE {
      assert s[..|s|] == s;
    } else {
      var init := s[..|s| - 1];
      RestIsSuffix(init);
      assert Rest(s) == Rest(init) + [s[|s| - 1]] && Ended(s) == Ended(init);
      hide Rest, Ended;
      assert s[..|s| - |Rest(s)|] == init[..|init| - |Rest(init)|];
    }
  }

  /** The next line of a buffer whose lines up to `consumed` are done. */
  lemma NextLine(base: Bytes, buffer: Bytes, consumed: nat, end: nat)
    requires consumed <= end < |buffer| && buffer[end] == NEWLINE && OneLine(buffer[consumed..end])
    requires Rest(base + buffer[..consumed]) == []
    ensures Ended(base + buffer[..end + 1]) == Ended(base + buffer[..consumed]) + [buffer[consumed..end]]
    ensures Rest(base + buffer[..end + 1]) == []
  {
    hide Rest, Ended, OneLine;
    LineEnds(base + buffer[..consumed], buffer[consumed..end]);
    assert base + buffer[..consumed] + buffer[consumed..end] + [NEWLINE] == base + buffer[..end + 1];
    assert [] + buffer[consumed..end] == buffer[consumed..end];
  }

  // ------------------------------------------------------------ what is logged

  /** Lines are trimmed, and blank ones dropped. */
  function Logged(trim: Bytes -> Bytes, lines: seq<Bytes>): seq<Bytes> {
    if lines == [] then []
    else
      var line := trim(lines[|lines| - 1]);
      Logged(trim, lines[..|lines| - 1]) + (if line == [] then [] else [line])
  }

  lemma LoggedOne(trim: Bytes -> Bytes, lines: seq<Bytes>, line: Bytes)
    ensures Logged(trim, lines + [line]) == Logged(trim, lines) + (if trim(line) == [] then [] else [trim(line)])
  {
    assert (lines + [line])[..|lines|] == lines;
  }

  datatype Call = Write(p: Bytes) | Flush

  /** The stream as the log sees it: a flush ends the line. */
  function Transcript(calls: seq<Call>): Bytes {
    if calls == [] then []
    else
      Transcript(calls[..|calls| - 1]) + match calls[|calls| - 1] case Write(p) => p case Flush => [NEWLINE]
  }

  /** Everything written, ignoring flushes. */
  function Written(calls: seq<Call>): Bytes {
    if calls == [] then []
    else Written(calls[..|calls| - 1]) + match calls[|calls| - 1] case Write(p) => p case Flush => []
  }

  ghost predicate Writes(calls: seq<Call>) {
    forall c :: c in calls ==> c.Write?
  }

  lemma {:induction false} WritesOnly(calls: seq<Call>)
    requires Writes(calls)
    ensures Transcript(calls) == Written(calls)
  {
    if calls != [] { WritesOnly(calls[..|calls| - 1]); }
  }

  lemma TranscriptGrows(calls: seq<Call>, c: Call)
    ensures Transcript(calls + [c]) == Transcript(calls) + match c case Write(p) => p case Flush => [NEWLINE]
    ensures Written(calls + [c]) == Written(calls) + match c case Write(p) => p case Flush => []
  {
    assert (calls + [c])[..|calls|] == calls;
  }

  function Flushes(n: nat): seq<Call> {
    seq(n, _ => Flush)
  }

  lemma FlushLogs(trim: Bytes -> Bytes, calls: seq<Call>)
    requires trim([]) == []
    ensures var t := Transcript(calls + [Flush]);
      && Logged(trim, Ended(t)) == Logged(trim, Lines(Transcript(calls))) && Rest(t) == []
  {
    hide Logged, Rest, Ended;
    TranscriptGrows(calls, Flush);
    EmptyLineEnds(Transcript(calls));
  }

  /** Further flushes log nothing. */
  lemma {:induction false} FlushesLog(trim: Bytes -> Bytes, calls: seq<Call>, flushes: nat)
    requires trim([]) == [] && flushes >= 1
    ensures var t := Transcript(calls + Flushes(flushes));
      && Logged(trim, Ended(t)) == Logged(trim, Lines(Transcript(calls))) && Rest(t) == []
  {
    hide Logged, Rest, Ended, Transcript;
    assert Flushes(flushes) == Flushes(flushes - 1) + [Flush];
    assert calls + Flushes(flushes) == calls + Flushes(flushes - 1) + [Flush];
    FlushLogs(trim, calls + Flushes(flushes - 1));
    if flushes > 1 {
      FlushesLog(trim, calls, flushes - 1);
      var before := Transcript(calls + Flushes(flushes - 1));
      LoggedOne(trim, Ended(before), Rest(before));
    } else {
      assert calls + Flushes(0) == calls;
    }
  }

  /**
   * However a stream is cut into writes, and flushed once or more at the end, its
   * lines are logged, trimmed, in order, without the blank ones.
   */
  lemma StreamIsLogged(trim: Bytes -> Bytes, calls: seq<Call>, flushes: nat)
    requires trim([]) == [] && flushes >= 1 && Writes(calls)
    ensures Logged(trim, Ended(Transcript(calls + Flushes(flushes)))) == Logged(trim, Lines(Written(calls)))
  {
    FlushesLog(trim, calls, flushes);
    WritesOnly(calls);
  }

  // ------------------------------------------------------------ the writer

  class LogLineWriter {
    const trim: Bytes -> Bytes
    var pending: array<byte>
    var len: nat
    var output: Bytes
    var log: seq<Bytes>
    ghost var calls: seq<Call>

    /** The buffer holds the unterminated line; all others are logged. */
    ghost predicate Valid()
      reads this, pending
    {
      && trim([]) == []
      && len <= pending.Length && pending[..len] == Rest(Transcript(calls))
      && output == Written(calls)
      && log == Logged(trim, Ended(Transcript(calls)))
    }

    constructor (trim: Bytes -> Bytes)
      requires trim([]) == []
      ensures Valid() && calls == [] && this.trim == trim && fresh(pending)
    {
      this.trim := trim;
      pending := new byte[0];
      len, output, log, calls := 0, [], [], [];
    }

    method Emit(raw: Bytes)
      modifies `log
      ensures log == old(log) + (if trim(raw) == [] then [] else [trim(raw)])
    {
      var line := trim(raw);
      if line != [] {
        log := log + [line];
      }
    }

    /** Appends to the buffer, moving to a larger one when it is full. */
    method Append(p: Bytes)
      requires len <= pending.Length
      modifies `pending, `len, pending
      ensures len == old(len) + |p| <= pending.Length && pending[..len] == old(pending[..len]) + p
      ensures pending == old(pending) || fresh(pending)
    {
      if len + |p| > pending.Length {
        var grown := new byte[2 * (len + |p|)](_ => 0);
        Fill(grown, 0, pending[..len]);
        pending := grown;
      }
      Fill(pending, len, p);
      len := len + |p|;
    }

    method IndexNewline(from: nat) returns (at: int)
      requires from <= len <= pending.Length
      ensures at < 0 ==> OneLine(pending[from..len])
      ensures at >= 0 ==> from <= at < len && pending[at] == NEWLINE && OneLine(pending[from..at])
    {
      at := from;
      while at < len
        invariant from <= at <= len && OneLine(pending[from..at])
      {
        if pending[at] == NEWLINE { return; }
        at := at + 1;
      }
      at := -1;
    }

    /** Logs every ended line of the buffer, which continues the stream `base`; returns how much they took. */
    method EmitLines(ghost base: Bytes) returns (consumed: nat)
      requires len <= pending.Length && Rest(base) == [] && log == Logged(trim, Ended(base))
      modifies `log
      ensures consumed <= len
      ensures log == Logged(trim, Ended(base + pending[..len])) && Rest(base + pending[..len]) == pending[consumed..len]
    {
      hide Rest, Ended, Logged, OneLine;
      ghost var buffer := pending[..len];
      consumed := 0;
      assert base + buffer[..consumed] == base;
      while true
        invariant 0 <= consumed <= len
        invariant log == Logged(trim, Ended(base + buffer[..consumed])) && Rest(base + buffer[..consumed]) == []
        decreases len - consumed
      {
        var end := IndexNewline(consumed);
        if end < 0 {
          break;
        }
        assert pending[consumed..end] == buffer[consumed..end];
        NextLine(base, buffer, consumed, end);
        LoggedOne(trim, Ended(base + buffer[..consumed]), buffer[consumed..end]);
        Emit(pending[consumed..end]);
        consumed := end + 1;
      }
      assert pending[consumed..len] == buffer[consumed..];
      RestGrows(base + buffer[..consumed], buffer[consumed..]);
      assert base + buffer[..consumed] + buffer[consumed..] == base + buffer;
      assert [] + buffer[consumed..] == buffer[consumed..];
    }

    method Write(p: Bytes) returns (n: nat)
      requires Valid()
      modifies this, pending
      ensures Valid() && calls == old(calls) + [Call.Write(p)] && n == |p|
      ensures pending == old(pending) || fresh(pending)
      ensures OneLine(pending[..len])
    {
      hide Rest, Ended, Logged, Transcript, Written, OneLine;
      ghost var before := Transcript(calls);
      RestIsSuffix(before);
      ghost var base := before[..|before| - |Rest(before)|];
      output := output + p;
      Append(p);
      Associative(base, Rest(before), p);
      assert base + Rest(before) == before;
      TranscriptGrows(calls, Call.Write(p));
      calls := calls + [Call.Write(p)];
      var consumed := EmitLines(base);
      if consumed > 0 {
        Shift(pending, len, consumed);
        len := len - consumed;
      }
      RestIsSuffix(Transcript(calls));
      return |p|;
    }

    /** Logs the unterminated line; safe to call more than once. */
    method Flush()
      requires Valid()
      modifies this
      ensures Valid() && calls == old(calls) + [Call.Flush] && len == 0
    {
      hide Rest, Ended, Logged, Transcript, Written;
      ghost var before := Transcript(calls);
      EmptyLineEnds(before);
      LoggedOne(trim, Ended(before), Rest(before));
      TranscriptGrows(calls, Call.Flush);
      calls := calls + [Call.Flush];
      if len == 0 {
        return;
      }
      Emit(pending[..len]);
      len := 0;
    }
  }
}
