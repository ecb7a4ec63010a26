/** The buffered line splitter of the AT channel (readline and findNextEOL in
    reference-ril/atchannel.c). */
module Lines {
  import opened Basics

  type Line = seq<Byte>

  const CR: Byte := 13
  const LF: Byte := 10

  predicate IsNewline(b: Byte) {
    b == CR || b == LF
  }

  ghost predicate AllNewlines(s: seq<Byte>) {
    forall i :: 0 <= i < |s| ==> IsNewline(s[i])
  }

  ghost predicate NoNewline(s: seq<Byte>) {
    forall i :: 0 <= i < |s| ==> !IsNewline(s[i])
  }

  /** The reference: the non-empty lines of a stream that CR or LF terminates,
      `line` being what has been seen of the current one. */
  function SplitFrom(s: seq<Byte>, line: Line): seq<Line> {
    if s == [] then []
    else if !IsNewline(s[0]) then SplitFrom(s[1..], line + [s[0]])
    else if line == [] then SplitFrom(s[1..], [])
    else [line] + SplitFrom(s[1..], [])
  }

  function Split(s: seq<Byte>): seq<Line> {
    SplitFrom(s, [])
  }

  lemma {:induction false} SkipNewlines(run: seq<Byte>, s: seq<Byte>)
    requires AllNewlines(run)
    ensures Split(run + s) == Split(s)
  {
    if run == [] {
      assert run + s == s;
    } else {
      assert (run + s)[1..] == run[1..] + s;
      SkipNewlines(run[1..], s);
    }
  }

  lemma {:induction false} SplitLine(line: Line, head: Line, s: seq<Byte>)
    requires NoNewline(line)
    ensures SplitFrom(line + s, head) == SplitFrom(s, head + line)
  {
    if line == [] {
      assert line + s == s && head + line == head;
    } else {
      assert (line + s)[1..] == line[1..] + s;
      assert head + [line[0]] + line[1..] == head + line;
      SplitLine(line[1..], head + [line[0]], s);
    }
  }

  // A newline run, a non-empty line and its terminator come off as one line.
  lemma SplitFirst(run: seq<Byte>, line: Line, eol: Byte, rest: seq<Byte>)
    requires AllNewlines(run) && NoNewline(line) && line != [] && IsNewline(eol)
    ensures Split(run + line + [eol] + rest) == [line] + Split(rest)
  {
    var tail := [eol] + rest;
    Associate(run + line, [eol], rest);
    Associate(run, line, tail);
    SkipNewlines(run, line + tail);
    SplitLine(line, [], tail);
    assert tail[1..] == rest && [] + line == line;
  }

  // The bytes a line cannot have: carriage return and line feed.
  predicate Plain(line: Line) {
    13 !in line && 10 !in line
  }

  /** Every line has something in it, and no terminator. */
  lemma {:induction false} SplitIsPlain(s: seq<Byte>, line: Line)
    requires Plain(line)
    ensures forall l :: l in SplitFrom(s, line) ==> l != [] && Plain(l)
  {
    if s != [] {
      SplitIsPlain(s[1..], if IsNewline(s[0]) then [] else line + [s[0]]);
    }
  }

  // CR, LF, or CR LF.
  predicate Terminator(eol: seq<Byte>) {
    eol == [13] || eol == [10] || eol == [13, 10]
  }

  function Terminated(lines: seq<Line>, eols: seq<seq<Byte>>): seq<Byte>
    requires |lines| == |eols|
  {
    if lines == [] then [] else lines[0] + eols[0] + Terminated(lines[1..], eols[1..])
  }

  /** Lines with any of the terminators are found again, and an unfinished one
      behind them is not. */
  lemma {:induction false} TerminatedSplit(lines: seq<Line>, eols: seq<seq<Byte>>, tail: Line)
    requires |lines| == |eols| && Plain(tail)
    requires forall i :: 0 <= i < |lines| ==> lines[i] != [] && Plain(lines[i]) && Terminator(eols[i])
    ensures Split(Terminated(lines, eols) + tail) == lines
  {
    if lines == [] {
      assert Terminated(lines, eols) + tail == [] + tail;
      SplitPartial([], tail);
    } else {
      var eol, rest := eols[0], Terminated(lines[1..], eols[1..]) + tail;
      TerminatedSplit(lines[1..], eols[1..], tail);
      SkipNewlines(eol[1..], rest);
      SplitFirst([], lines[0], eol[0], eol[1..] + rest);
      assert [] + lines[0] + [eol[0]] + (eol[1..] + rest) == Terminated(lines, eols) + tail by {
        assert eol == [eol[0]] + eol[1..];
        Associate(lines[0] + eol, Terminated(lines[1..], eols[1..]), tail);
        Associate(lines[0], [eol[0]], eol[1..]);
        Associate(lines[0] + [eol[0]], eol[1..], rest);
        assert [] + lines[0] == lines[0];
      }
    }
  }

  lemma SplitPartial(run: seq<Byte>, line: Line)
    requires AllNewlines(run) && NoNewline(line)
    ensures Split(run + line) == []
  {
    SkipNewlines(run, line);
    assert line + [] == line;
    SplitLine(line, [], []);
  }

  /** Some newline run and the line after it reach the limit. */
  ghost predicate Overlong(s: seq<Byte>, limit: nat) {
    exists i, k, j :: Stretch(s, i, k, j) && j - i >= limit
  }

  // A newline run s[i..k] and a line, or the start of one, s[k..j].
  ghost predicate Stretch(s: seq<Byte>, i: int, k: int, j: int) {
    0 <= i <= k <= j <= |s| && AllNewlines(s[i..k]) && NoNewline(s[k..j])
  }

  // A line starts at i.
  predicate LineStart(s: seq<Byte>, i: nat) {
    i < |s| && (i == 0 || IsNewline(s[i - 1]))
  }

  const PROMPT: Line := ['>' as int, ' ' as int]

  /** Some line begins with the SMS prompt. */
  ghost predicate HasPrompt(s: seq<Byte>) {
    exists i :: PromptAt(s, i)
  }

  predicate PromptAt(s: seq<Byte>, i: int) {
    0 <= i && i + 1 < |s| && LineStart(s, i) && s[i] == PROMPT[0] && s[i + 1] == PROMPT[1]
  }

  /** The streams on which the chunks read can make no difference: bounded
      lines, none of which begins with the prompt. */
  ghost predicate Tame(s: seq<Byte>, limit: nat) {
    !Overlong(s, limit) && !HasPrompt(s)
  }

  lemma TameSuffix(s: seq<Byte>, n: nat, limit: nat)
    requires Tame(s, limit) && 0 < n <= |s| && IsNewline(s[n - 1])
    ensures Tame(s[n..], limit)
  {
    var r := s[n..];
    forall i, k, j | Stretch(r, i, k, j) ensures j - i < limit {
      StretchBack(s, n, i, k, j);
    }
    forall i ensures !PromptAt(r, i) {
      if PromptAt(r, i) { PromptBack(s, n, i); }
    }
  }

  // What is found behind n is found in the whole.
  lemma StretchBack(s: seq<Byte>, n: nat, i: int, k: int, j: int)
    requires n <= |s| && Stretch(s[n..], i, k, j)
    ensures Stretch(s, n + i, n + k, n + j)
  {
    var r := s[n..];
    assert r[i..k] == s[n + i..n + k] && r[k..j] == s[n + k..n + j];
  }

  lemma PromptBack(s: seq<Byte>, n: nat, i: int)
    requires 0 < n <= |s| && IsNewline(s[n - 1]) && PromptAt(s[n..], i)
    ensures PromptAt(s, n + i)
  {}
}

module LineReader {
  import opened Basics
  import opened Descriptors
  import opened Lines

  const MAX_AT_RESPONSE: nat := 8 * 1024

  /** A stretch of S consumed as leading newlines, then what is still there. */
  ghost predicate AtLine(S: seq<Byte>, c: nat, pending: seq<Byte>, unread: seq<Byte>) {
    c <= |S| && AllNewlines(S[..c]) && S[c..] == pending + unread
  }

  lemma AtLineSkip(S: seq<Byte>, c: nat, pending: seq<Byte>, n: nat, unread: seq<Byte>)
    requires AtLine(S, c, pending, unread) && n <= |pending| && AllNewlines(pending[..n])
    ensures AtLine(S, c + n, pending[n..], unread)
  {
    assert S[c..c + n] == S[c..][..n] == pending[..n];
    assert S[..c + n] == S[..c] + pending[..n];
    assert S[c + n..] == S[c..][n..];
  }

  /** One line came off S, up to its terminator. */
  ghost predicate NextLine(S: seq<Byte>, line: Line, rest: seq<Byte>) {
    && Split(S) == [line] + Split(rest)
    && exists n :: 0 < n <= |S| && IsNewline(S[n - 1]) && rest == S[n..]
  }

  /** Nothing but leading newlines came off S. */
  ghost predicate NoLine(S: seq<Byte>, rest: seq<Byte>) {
    && Split(S) == Split(rest)
    && exists n :: 0 <= n <= |S| && AllNewlines(S[..n]) && rest == S[n..]
  }

  lemma AtLineTake(S: seq<Byte>, c: nat, pending: seq<Byte>, n: nat, unread: seq<Byte>)
    requires AtLine(S, c, pending, unread)
    requires 0 < n < |pending| && NoNewline(pending[..n]) && IsNewline(pending[n])
    ensures NextLine(S, pending[..n], pending[n + 1..] + unread)
  {
    var line, eol, rest := pending[..n], pending[n], pending[n + 1..] + unread;
    assert pending == line + [eol] + pending[n + 1..];
    Associate(line + [eol], pending[n + 1..], unread);
    CutAt(S, c, line, eol, rest);
    SplitFirst(S[..c], line, eol, rest);
    NextLineAt(S, line, rest, c + n + 1);
  }

  lemma CutAt(S: seq<Byte>, c: nat, line: Line, eol: Byte, rest: seq<Byte>)
    requires c <= |S| && S[c..] == line + [eol] + rest
    ensures S == S[..c] + line + [eol] + rest
    ensures c + |line| < |S| && S[c + |line|] == eol && S[c + |line| + 1..] == rest
  {
    var tail := line + [eol] + rest;
    assert S == S[..c] + tail;
    Associate(S[..c], line + [eol], rest);
    Associate(S[..c], line, [eol]);
    assert S[c + |line|] == tail[|line|];
    assert S[c + |line| + 1..] == tail[|line| + 1..];
  }

  lemma NextLineAt(S: seq<Byte>, line: Line, rest: seq<Byte>, n: nat)
    requires 0 < n <= |S| && IsNewline(S[n - 1]) && rest == S[n..]
    requires Split(S) == [line] + Split(rest)
    ensures NextLine(S, line, rest)
  {}

  lemma AtLineNone(S: seq<Byte>, c: nat, pending: seq<Byte>, unread: seq<Byte>)
    requires AtLine(S, c, pending, unread)
    ensures NoLine(S, pending + unread)
  {
    SkipNewlines(S[..c], S[c..]);
    assert S == S[..c] + S[c..];
  }

  // A buffer full of one newline run and the line after it.
  lemma FullIsOverlong(S: seq<Byte>, c: nat, cur: nat, pending: seq<Byte>, unread: seq<Byte>)
    requires AtLine(S, c, pending, unread) && cur <= c && NoNewline(pending)
    requires cur + |pending| >= MAX_AT_RESPONSE
    ensures Overlong(S, MAX_AT_RESPONSE)
  {
    assert S[c - cur..c] == S[..c][c - cur..];
    assert S[c..c + |pending|] == pending;
    assert Stretch(S, c - cur, c, c + |pending|);
  }

  lemma PromptHere(S: seq<Byte>, c: nat, unread: seq<Byte>)
    requires AtLine(S, c, PROMPT, unread)
    ensures HasPrompt(S)
  {
    assert S[c] == S[c..][0] == PROMPT[0] && S[c + 1] == S[c..][1] == PROMPT[1];
    assert c > 0 ==> S[c - 1] == S[..c][c - 1];
    assert PromptAt(S, c);
  }

  /** s_ATBuffer and s_ATBufferCur. */
  class LineReader {
    const fd: Source
    const buffer: array<Byte>
    var cur: nat
    ghost var end: nat  // the terminator of the text at cur

    ghost predicate Valid()
      reads this, buffer
    {
      && buffer.Length == MAX_AT_RESPONSE + 1
      && cur <= end <= MAX_AT_RESPONSE
      && buffer[end] == 0
      && 0 !in buffer[cur..end]
    }

    ghost function Pending(): seq<Byte>
      requires cur <= end <= buffer.Length
      reads this, buffer
    {
      buffer[cur..end]
    }

    constructor (fd: Source)
      ensures Valid() && fresh(buffer) && this.fd == fd && Pending() == []
    {
      this.fd := fd;
      buffer := new Byte[MAX_AT_RESPONSE + 1](_ => 0);
      cur, end := 0, 0;
    }

    /** Where the text at the cursor, which starts a line, has its line's end:
        the prompt's own end, else the first newline. */
    ghost predicate EndsAt(eol: Option<nat>)
      requires cur <= end <= buffer.Length
      reads this, buffer
    {
      if Pending() == PROMPT then eol == Some(end)
      else if eol.None? then NoNewline(Pending())
      else cur < eol.value < end && NoNewline(Pending()[..eol.value - cur]) && IsNewline(Pending()[eol.value - cur])
    }

    /** findNextEOL */
    method FindNextEOL(from: nat) returns (eol: Option<nat>)
      requires Valid() && from == cur && (cur < end ==> !IsNewline(buffer[cur]))
      ensures EndsAt(eol)
    {
      if buffer[from] == PROMPT[0] {
        assert from < end;
        if buffer[from + 1] == PROMPT[1] {
          assert from + 1 < end;
          if buffer[from + 2] == 0 {
            assert end == from + 2;
            return Some(from + 2);
          }
        }
      }
      var at: nat := from;
      while buffer[at] != 0 && !IsNewline(buffer[at])
        invariant cur <= at <= end
        invariant NoNewline(buffer[cur..at])
        decreases end - at
      {
        at := at + 1;
      }
      assert Pending()[..at - cur] == buffer[cur..at];
      return if buffer[at] == 0 then None else Some(at);
    }

    // The loop over leading newlines.
    method SkipLeading(ghost S: seq<Byte>, ghost c: nat)
      requires Valid()
      modifies this`cur
      ensures Valid() && old(cur) <= cur
      ensures cur < end ==> !IsNewline(buffer[cur])
      ensures AtLine(S, c, old(Pending()), fd.unread) ==> AtLine(S, c + (cur - old(cur)), Pending(), fd.unread)
    {
      while IsNewline(buffer[cur])
        invariant old(cur) <= cur && Valid()
        invariant AllNewlines(buffer[old(cur)..cur])
        decreases end - cur
      {
        cur := cur + 1;
      }
      ghost var n := cur - old(cur);
      assert old(Pending())[..n] == buffer[old(cur)..cur] && old(Pending())[n..] == Pending();
      if AtLine(S, c, old(Pending()), fd.unread) {
        AtLineSkip(S, c, old(Pending()), n, fd.unread);
      }
    }

    // A buffer without a newline is dropped as a whole.
    method Ditch()
      requires Valid()
      modifies this, buffer
      ensures Valid() && cur == end == 0
    {
      cur := 0;
      buffer[0] := 0;
      end := 0;
    }

    // strlen and memmove of a partial line to the start of the buffer
    method MoveUp() returns (len: nat)
      requires Valid()
      modifies this, buffer
      ensures Valid() && cur == 0 && end == len && Pending() == old(Pending())
    {
      len := 0;
      while buffer[cur + len] != 0
        invariant cur + len <= end
        decreases end - len
      {
        len := len + 1;
      }
      assert cur + len == end;
      for i := 0 to len + 1
        invariant cur == old(cur) && end == old(end)
        invariant forall k :: 0 <= k < i ==> buffer[k] == old(buffer[cur + k])
        invariant forall k :: i <= k < buffer.Length ==> buffer[k] == old(buffer[k])
      {
        buffer[i] := buffer[cur + i];
      }
      cur := 0;
      end := len;
      assert buffer[..len] == old(Pending());
    }

    // One read() at the end of the text, terminated again.
    method ReadMore(pRead: nat) returns (count: int)
      requires Valid() && pRead == end < MAX_AT_RESPONSE && 0 !in fd.unread
      modifies this`end, buffer, fd
      ensures Valid() && 0 !in fd.unread
      ensures count <= 0 ==> Pending() == old(Pending())
      ensures count > 0 ==> end == pRead + count && |fd.unread| < |old(fd.unread)|
      ensures (count <= 0 ==> fd.Stopped()) && (old(fd.Steady()) ==> fd.Steady())
      ensures Pending() + fd.unread == old(Pending() + fd.unread)
    {
      ghost var had := Pending();
      count := fd.Read(buffer, pRead, MAX_AT_RESPONSE - pRead);
      ghost var taken := old(fd.unread)[..Max(count, 0)];
      assert buffer[..pRead] == old(buffer[..pRead]);
      assert buffer[cur..pRead] == had;
      if count > 0 {
        assert buffer[pRead..pRead + count] == taken;
        buffer[pRead + count] := 0;
        end := pRead + count;
        assert Pending() == had + taken;
      } else {
        assert buffer[pRead] == old(buffer[pRead]);
      }
    }
 
    ghost function Remaining(): seq<Byte>
      requires cur <= end <= buffer.Length
      reads this, buffer, fd
    {
      Pending() + fd.unread
    }

    // The end of readline: a terminator over the line's end, the cursor past it.
    method Finish(eol: nat, ghost S: seq<Byte>, ghost c: nat) returns (line: Line)
      requires Valid() && EndsAt(Some(eol))
      modifies this`cur, buffer
      ensures eol == end ==> line == PROMPT && (AtLine(S, c, old(Pending()), fd.unread) ==> HasPrompt(S))
      ensures eol < end ==> Valid() && (AtLine(S, c, old(Pending()), fd.unread) ==> NextLine(S, line, Remaining()))
      ensures eol == end <==> old(Pending()) == PROMPT
    {
      ghost var pending, n := Pending(), eol - cur;
      buffer[eol] := 0;
      line := buffer[cur..eol];
      cur := eol + 1;
      assert line == pending[..n];
      if AtLine(S, c, pending, fd.unread) {
        if eol == end {
          PromptHere(S, c, fd.unread);
        } else {
          AtLineTake(S, c, pending, n, fd.unread);
        }
      }
      assert eol < end ==> Pending() == pending[n + 1..];
    }

    // What the last call left over: a whole line, or a part of one to move up.
    method Start() returns (eol: Option<nat>, pRead: nat, ghost c: nat)
      requires Valid()
      modifies this, buffer
      ensures Valid() && EndsAt(eol)
      ensures AtLine(old(Remaining()), c, Pending(), fd.unread)
      ensures eol.None? ==> cur == 0 && pRead == end
    {
      c, pRead := 0, 0;
      if buffer[cur] == 0 {
        Ditch();
        return None, 0, 0;
      }
      ghost var from := cur;
      SkipLeading(Remaining(), 0);
      c := cur - from;
      eol := FindNextEOL(cur);
      if eol.None? {
        pRead := MoveUp();
      }
    }

    // One turn of the read loop: more bytes behind an unfinished line, from the
    // start of the buffer if it was full.
    method Refill(pRead0: nat, ghost S: seq<Byte>, ghost c0: nat, ghost dropped0: bool)
        returns (closed: bool, eol: Option<nat>, pRead: nat, ghost c: nat, ghost dropped: bool)
      requires Valid() && 0 !in fd.unread && pRead0 == end && NoNewline(Pending()) && cur <= c0
      requires !dropped0 ==> AtLine(S, c0, Pending(), fd.unread)
      modifies this, buffer, fd
      ensures Valid() && 0 !in fd.unread
      ensures !closed ==> EndsAt(eol) && pRead == end && cur <= c && |fd.unread| < |old(fd.unread)|
      ensures closed ==> NoNewline(Pending()) && fd.Stopped()
      ensures old(fd.Steady()) ==> fd.Steady()
      ensures !dropped ==> !dropped0 && AtLine(S, c, Pending(), fd.unread)
      ensures !dropped0 && dropped ==> Overlong(S, MAX_AT_RESPONSE)
    {
      pRead, c, dropped, eol := pRead0, c0, dropped0, None;
      if MAX_AT_RESPONSE - pRead == 0 {
        if !dropped {
          FullIsOverlong(S, c, cur, Pending(), fd.unread);
        }
        Ditch();
        pRead := 0;
        dropped := true;
      }
      var count := ReadMore(pRead);
      closed := count <= 0;
      if closed {
        return;
      }
      ghost var from := cur;
      SkipLeading(S, c);
      c := c + (cur - from);
      eol := FindNextEOL(cur);
      pRead := pRead + count;
    }

    // The read loop: until the line at the cursor has an end.
    method AwaitLine(ghost S: seq<Byte>)
        returns (eol: Option<nat>, ghost c: nat, ghost dropped: bool)
      requires Valid() && 0 !in fd.unread && S == Remaining()
      modifies this, buffer, fd
      ensures Valid() && 0 !in fd.unread
      ensures eol.Some? ==> EndsAt(eol)
      ensures eol.None? ==> NoNewline(Pending()) && fd.Stopped()
      ensures old(fd.Steady()) ==> fd.Steady()
      ensures !dropped ==> AtLine(S, c, Pending(), fd.unread)
      ensures dropped ==> Overlong(S, MAX_AT_RESPONSE)
    {
      dropped := false;
      var pRead: nat;
      eol, pRead, c := Start();
      while eol.None?
        invariant Valid() && 0 !in fd.unread && EndsAt(eol)
        invariant eol.None? ==> pRead == end && cur <= c && NoNewline(Pending())
        invariant !dropped ==> AtLine(S, c, Pending(), fd.unread)
        invariant dropped ==> Overlong(S, MAX_AT_RESPONSE)
        invariant old(fd.Steady()) ==> fd.Steady()
        decreases |fd.unread|
      {
        var closed;
        closed, eol, pRead, c, dropped := Refill(pRead, S, c, dropped);
        if closed {
          return None, c, dropped;
        }
      }
    }

    /** readline.  Unless it met the prompt or had to drop a full buffer, it
        returns the next line of the reference splitting, or nothing once a read
        has failed or there is nothing left to read; and on a stream of bounded lines that do not begin with the
        prompt it does neither, so that nothing depends on the chunks read. */
    method ReadLine() returns (r: Option<Line>, ghost dropped: bool, ghost prompt: bool)
      requires Valid() && 0 !in fd.unread
      modifies this, buffer, fd
      ensures 0 !in fd.unread
      ensures r.None? ==> fd.Stopped()
      ensures old(fd.Steady()) ==> fd.Steady()
      ensures prompt ==> r == Some(PROMPT)
      ensures !prompt ==> Valid()
      ensures dropped ==> Overlong(old(Remaining()), MAX_AT_RESPONSE)
      ensures prompt && !dropped ==> HasPrompt(old(Remaining()))
      ensures !prompt && !dropped && r.Some? ==> NextLine(old(Remaining()), r.value, Remaining())
      ensures !prompt && !dropped && r.None? ==> NoLine(old(Remaining()), Remaining()) && NoNewline(Pending())
    {
      ghost var S, c := Remaining(), 0;
      var eol: Option<nat>;
      eol, c, dropped := AwaitLine(S);
      if eol.None? {
        if !dropped {
          AtLineNone(S, c, Pending(), fd.unread);
        }
        return None, dropped, false;
      }
      prompt := eol.value == end;
      var line := Finish(eol.value, S, c);
      r := Some(line);
    }
  }
  lemma TameAfterLine(S: seq<Byte>, line: Line, rest: seq<Byte>)
    requires NextLine(S, line, rest) && Tame(S, MAX_AT_RESPONSE)
    ensures Tame(rest, MAX_AT_RESPONSE) && |rest| < |S|
  {
    var n :| 0 < n <= |S| && IsNewline(S[n - 1]) && rest == S[n..];
    TameSuffix(S, n, MAX_AT_RESPONSE);
  }

  /** readline on a tame stream: the next line of the reference splitting, or
      none, and then a read has failed or no line is left. */
  method NextOf(reader: LineReader) returns (r: Option<Line>)
    requires reader.Valid() && 0 !in reader.fd.unread
    requires Tame(reader.Remaining(), MAX_AT_RESPONSE)
    modifies reader, reader.buffer, reader.fd
    ensures reader.Valid() && 0 !in reader.fd.unread
    ensures r.Some? ==> (
      && Split(old(reader.Remaining())) == [r.value] + Split(reader.Remaining())
      && Tame(reader.Remaining(), MAX_AT_RESPONSE) && |reader.Remaining()| < |old(reader.Remaining())|)
    ensures r.None? ==> (
      && Split(old(reader.Remaining())) == Split(reader.Remaining())
      && (reader.fd.unread == [] ==> Split(reader.Remaining()) == [])
      && reader.fd.Stopped())
    ensures old(reader.fd.Steady()) ==> reader.fd.Steady()
  {
    ghost var S := reader.Remaining();
    ghost var dropped, prompt;
    r, dropped, prompt := reader.ReadLine();
    if r.Some? {
      TameAfterLine(S, r.value, reader.Remaining());
    } else if reader.fd.unread == [] {
      assert [] + reader.Pending() == reader.Pending() == reader.Remaining();
      SplitPartial([], reader.Pending());
    }
  }

  /** The reads of readerLoop, until the channel closes: on a tame stream they
      are the reference splitting of the bytes that arrived, whatever the
      chunks, and they are all of it unless a read has failed. */
  method ReadAll(reader: LineReader) returns (lines: seq<Line>)
    requires reader.Valid() && 0 !in reader.fd.unread
    requires Tame(reader.Remaining(), MAX_AT_RESPONSE)
    modifies reader, reader.buffer, reader.fd
    ensures reader.Valid()
    ensures Split(old(reader.Remaining())) == lines + Split(reader.Remaining())
    ensures !reader.fd.failed || reader.fd.unread == [] ==> lines == Split(old(reader.Remaining()))
    ensures old(reader.fd.Steady()) ==> reader.fd.Steady()
  {
    lines := [];
    while true
      invariant reader.Valid() && 0 !in reader.fd.unread
      invariant Tame(reader.Remaining(), MAX_AT_RESPONSE)
      invariant Split(old(reader.Remaining())) == lines + Split(reader.Remaining())
      invariant old(reader.fd.Steady()) ==> reader.fd.Steady()
      decreases |reader.Remaining()|
    {
      var r := NextOf(reader);
      if r.None? {
        return;
      }
      assert lines + ([r.value] + Split(reader.Remaining())) == (lines + [r.value]) + Split(reader.Remaining());
      lines := lines + [r.value];
    }
  }
}
