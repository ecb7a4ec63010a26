/** The reader thread of the AT channel, from bytes to the pending response
    (readerLoop in reference-ril/atchannel.c). */
module AtReader {
  import opened Basics
  import opened AtCommand
  import opened AtLines
  import Lines
  import LineReader

  // A line as the C string that readline returns.
  function Text(line: Lines.Line): (t: string)
    ensures |t| == |line|
  {
    seq(|line|, i requires 0 <= i < |line| => line[i] as char)
  }

  function Texts(lines: seq<Lines.Line>): (texts: seq<string>)
    ensures |texts| == |lines| && forall i :: 0 <= i < |lines| ==> texts[i] == Text(lines[i])
  {
    seq(|lines|, i requires 0 <= i < |lines| => Text(lines[i]))
  }

  /** The prompt that the splitter looks for is the one that commands wait for. */
  lemma PromptIsPrompt()
    ensures Text(Lines.PROMPT) == PROMPT == ['>', ' ']
  {}

  // isSMSUnsolicited: the next line belongs to this one.
  predicate IsSms(line: string) {
    StartsWith(line, "+CMT:") || StartsWith(line, "+CDS:") || StartsWith(line, "+CBM:")
  }

  /** The three messages that are reported in two lines, by their first five
      characters. */
  lemma SmsMeans(line: string)
    ensures IsSms(line) <==> |line| >= 5 && line[..5] in ["+CMT:", "+CDS:", "+CBM:"]
  {
    PrefixMeans(line, "+CMT:");
    PrefixMeans(line, "+CDS:");
    PrefixMeans(line, "+CBM:");
  }

  /** What the lines do to the channel, those of a message reported in two lines
      going to the unsolicited handler together. */
  function Feed(ch: Channel, lines: seq<string>): Channel
    decreases |lines|
  {
    if lines == [] then ch
    else if !IsSms(lines[0]) then Feed(Process(ch, lines[0]), lines[1..])
    else if |lines| == 1 then ch
    else Feed(Unsolicited(Unsolicited(ch, lines[0]), lines[1]), lines[2..])
  }

  /** The lines that processLine gets. */
  function Processed(lines: seq<string>): seq<string>
    decreases |lines|
  {
    if lines == [] then []
    else if !IsSms(lines[0]) then [lines[0]] + Processed(lines[1..])
    else if |lines| == 1 then []
    else Processed(lines[2..])
  }

  // No message is cut in two.
  predicate Balanced(lines: seq<string>)
    decreases |lines|
  {
    || lines == []
    || (!IsSms(lines[0]) && Balanced(lines[1..]))
    || (IsSms(lines[0]) && |lines| > 1 && Balanced(lines[2..]))
  }

  lemma {:induction false} FeedMore(ch: Channel, a: seq<string>, b: seq<string>)
    requires Balanced(a)
    ensures Feed(ch, a + b) == Feed(Feed(ch, a), b)
    ensures Balanced(b) ==> Balanced(a + b)
    decreases |a|
  {
    if a == [] {
      assert a + b == b;
    } else if !IsSms(a[0]) {
      assert (a + b)[1..] == a[1..] + b;
      FeedMore(Process(ch, a[0]), a[1..], b);
    } else {
      assert (a + b)[2..] == a[2..] + b;
      FeedMore(Unsolicited(Unsolicited(ch, a[0]), a[1]), a[2..], b);
    }
  }

  lemma {:induction false} HandlerKeeps(ch: Channel, lines: seq<string>)
    ensures ch.unsolicited <= Feed(ch, lines).unsolicited
    decreases |lines|
  {
    if lines == [] {
    } else if !IsSms(lines[0]) {
      HandlerKeeps(Process(ch, lines[0]), lines[1..]);
    } else if |lines| > 1 {
      HandlerKeeps(Unsolicited(Unsolicited(ch, lines[0]), lines[1]), lines[2..]);
    }
  }

  /** A message anywhere among the lines goes to the handler, its second line
      whatever that looks like, and changes nothing of a pending command. */
  lemma MessageDelivered(ch: Channel, before: seq<string>, first: string, second: string, rest: seq<string>)
    requires Balanced(before) && IsSms(first)
    ensures var mid := Feed(ch, before);
            var after := mid.(unsolicited := mid.unsolicited + [first, second]);
            && Feed(ch, before + ([first, second] + rest)) == Feed(after, rest)
            && after.unsolicited <= Feed(ch, before + ([first, second] + rest)).unsolicited
  {
    var mid := Feed(ch, before);
    var lines := [first, second] + rest;
    FeedMore(ch, before, lines);
    assert lines[2..] == rest && mid.unsolicited + [first] + [second] == mid.unsolicited + [first, second];
    HandlerKeeps(Unsolicited(Unsolicited(mid, first), second), rest);
  }

  // Equal up to what the handler has been given.
  predicate SameState(a: Channel, b: Channel) {
    a.(unsolicited := []) == b.(unsolicited := [])
  }

  lemma SameStep(a: Channel, b: Channel, line: string)
    requires SameState(a, b)
    ensures SameState(Process(a, line), Process(b, line))
  {}

  lemma {:induction false} ProcessAllCons(ch: Channel, line: string, rest: seq<string>)
    ensures ProcessAll(ch, [line] + rest) == ProcessAll(Process(ch, line), rest)
    decreases |rest|
  {
    var all := [line] + rest;
    if rest == [] {
      assert all[..0] == [] && all == [line];
    } else {
      var n := |rest| - 1;
      assert all[..|all| - 1] == [line] + rest[..n];
      ProcessAllCons(ch, line, rest[..n]);
    }
  }

  lemma {:induction false} FeedIsProcess(a: Channel, b: Channel, lines: seq<string>)
    requires SameState(a, b)
    ensures SameState(Feed(a, lines), ProcessAll(b, Processed(lines)))
    decreases |lines|
  {
    if lines == [] {
    } else if !IsSms(lines[0]) {
      SameStep(a, b, lines[0]);
      ProcessAllCons(b, lines[0], Processed(lines[1..]));
      FeedIsProcess(Process(a, lines[0]), Process(b, lines[0]), lines[1..]);
    } else if |lines| > 1 {
      FeedIsProcess(Unsolicited(Unsolicited(a, lines[0]), lines[1]), b, lines[2..]);
    }
  }

  /** Whatever lines come, messages among them, the response of a command holds
      what the lines meant for it are due. */
  lemma FeedAnswers(ch: Channel, c: Command, lines: seq<string>)
    ensures var r := Feed(Opened(ch, c), lines);
            && r.slot.Some? && Answered(c, Processed(lines), r.slot.value)
            && r.pdusWritten == ch.pdusWritten + (if PROMPT in Processed(lines) && c.pdu.Some? then [c.pdu.value] else [])
  {
    FeedIsProcess(Opened(ch, c), Opened(ch, c), lines);
    ProcessAllAnswers(ch, c, Processed(lines));
  }

  lemma OneLine(line: string)
    requires !IsSms(line)
    ensures Balanced([line]) && forall ch :: Feed(ch, [line]) == Process(ch, line)
  {
    assert [line][1..] == [];
  }

  lemma TwoLines(line1: string, line2: string)
    requires IsSms(line1)
    ensures Balanced([line1, line2])
    ensures forall ch :: Feed(ch, [line1, line2]) == Unsolicited(Unsolicited(ch, line1), line2)
  {
    assert [line1, line2][2..] == [];
  }

  lemma TextsMore(a: seq<Lines.Line>, b: seq<Lines.Line>)
    ensures Texts(a + b) == Texts(a) + Texts(b)
  {}

  // The unsolicited handler gets both lines of a message.
  method HandleMessage(ch: AtChannel, line1: string, line2: string)
    requires ch.Valid()
    modifies ch`unsolicited
    ensures ch.Valid() && ch.Value() == Unsolicited(Unsolicited(old(ch.Value()), line1), line2)
  {
    ch.HandleUnsolicited(line1);
    ch.HandleUnsolicited(line2);
  }

  // Nodes of the response are old or new.
  twostate predicate NodesKept(ch: AtChannel)
    requires old(ch.slot) == ch.slot
    reads ch, ch.slot
  {
    ch.slot != null ==> forall n :: n in ch.slot.nodes ==> n in old(ch.slot.nodes) || fresh(n)
  }

  // A line that is not the first of a message, or a message with its second
  // line, reaches the channel.
  method Hand(ch: AtChannel, line1: string, line2: Option<string>)
    requires ch.Valid() && (line2.Some? <==> IsSms(line1))
    modifies ch, ch.slot
    ensures ch.Valid() && ch.slot == old(ch.slot) && NodesKept(ch)
    ensures var lines := if line2.Some? then [line1, line2.value] else [line1];
            Balanced(lines) && ch.Value() == Feed(old(ch.Value()), lines)
  {
    if line2.Some? {
      TwoLines(line1, line2.value);
      HandleMessage(ch, line1, line2.value);
    } else {
      OneLine(line1);
      ch.ProcessLine(line1);
    }
  }

  // What one turn reads: a line, or the two of a message; `more` unless the
  // channel has closed before all of it.
  method Fetch(reader: LineReader.LineReader) returns (more: bool, lines: seq<Lines.Line>)
    requires reader.Valid() && 0 !in reader.fd.unread
    requires Lines.Tame(reader.Remaining(), LineReader.MAX_AT_RESPONSE)
    modifies reader, reader.buffer, reader.fd
    ensures reader.Valid() && 0 !in reader.fd.unread
    ensures Lines.Split(old(reader.Remaining())) == lines + Lines.Split(reader.Remaining())
    ensures more ==> (
      && Lines.Tame(reader.Remaining(), LineReader.MAX_AT_RESPONSE)
      && |reader.Remaining()| < |old(reader.Remaining())|
      && 1 <= |lines| <= 2 && (|lines| == 2 <==> IsSms(Text(lines[0]))))
    ensures !more ==> lines == [] || (|lines| == 1 && IsSms(Text(lines[0])))
    ensures !more ==> reader.fd.Stopped() && (reader.fd.unread == [] ==> Lines.Split(reader.Remaining()) == [])
    ensures old(reader.fd.Steady()) ==> reader.fd.Steady()
  {
    var first := LineReader.NextOf(reader);
    if first.None? {
      return false, [];
    }
    if !IsSms(Text(first.value)) {
      return true, [first.value];
    }
    var second := LineReader.NextOf(reader);
    if second.None? {
      return false, [first.value];
    }
    return true, [first.value, second.value];
  }

  /** One turn of readerLoop; false when the channel has closed, in the middle of
      a message or not. */
  method ReadOne(reader: LineReader.LineReader, ch: AtChannel) returns (more: bool, lines: seq<Lines.Line>)
    requires reader.Valid() && 0 !in reader.fd.unread && ch.Valid()
    requires Lines.Tame(reader.Remaining(), LineReader.MAX_AT_RESPONSE)
    modifies reader, reader.buffer, reader.fd, ch, ch.slot
    ensures reader.Valid() && 0 !in reader.fd.unread && ch.Valid() && ch.slot == old(ch.slot) && NodesKept(ch)
    ensures Lines.Split(old(reader.Remaining())) == lines + Lines.Split(reader.Remaining())
    ensures ch.Value() == Feed(old(ch.Value()), Texts(lines))
    ensures more ==> Lines.Tame(reader.Remaining(), LineReader.MAX_AT_RESPONSE) && Balanced(Texts(lines))
    ensures more ==> |reader.Remaining()| < |old(reader.Remaining())|
    ensures !more ==> reader.fd.Stopped() && (reader.fd.unread == [] ==> Lines.Split(reader.Remaining()) == [])
    ensures old(reader.fd.Steady()) ==> reader.fd.Steady()
  {
    more, lines := Fetch(reader);
    if more {
      var line2 := if |lines| == 2 then Some(Text(lines[1])) else None;
      Hand(ch, Text(lines[0]), line2);
      assert Texts(lines) == if line2.Some? then [Text(lines[0]), line2.value] else [Text(lines[0])];
    }
  }

  /** readerLoop, until the channel closes: on a tame stream the channel becomes
      what the lines of the reference splitting make of it, however read() cuts
      the stream, and of all of them unless a read has failed. */
  method ReaderLoop(reader: LineReader.LineReader, ch: AtChannel) returns (lines: seq<Lines.Line>)
    requires reader.Valid() && 0 !in reader.fd.unread && ch.Valid()
    requires Lines.Tame(reader.Remaining(), LineReader.MAX_AT_RESPONSE)
    modifies reader, reader.buffer, reader.fd, ch, ch.slot
    ensures reader.Valid() && ch.Valid() && ch.slot == old(ch.slot) && NodesKept(ch)
    ensures Lines.Split(old(reader.Remaining())) == lines + Lines.Split(reader.Remaining())
    ensures !reader.fd.failed || reader.fd.unread == [] ==> lines == Lines.Split(old(reader.Remaining()))
    ensures old(reader.fd.Steady()) ==> reader.fd.Steady()
    ensures ch.Value() == Feed(old(ch.Value()), Texts(lines))
  {
    lines := [];
    var more := true;
    while more
      invariant reader.Valid() && 0 !in reader.fd.unread && ch.Valid() && ch.slot == old(ch.slot) && NodesKept(ch)
      invariant more ==> Lines.Tame(reader.Remaining(), LineReader.MAX_AT_RESPONSE) && Balanced(Texts(lines))
      invariant Lines.Split(old(reader.Remaining())) == lines + Lines.Split(reader.Remaining())
      invariant ch.Value() == Feed(old(ch.Value()), Texts(lines))
      invariant !more ==> reader.fd.Stopped() && (reader.fd.unread == [] ==> Lines.Split(reader.Remaining()) == [])
      invariant old(reader.fd.Steady()) ==> reader.fd.Steady()
      decreases more, |reader.Remaining()|
    {
      var some;
      more, some := ReadOne(reader, ch);
      Associate(lines, some, Lines.Split(reader.Remaining()));
      TextsMore(lines, some);
      FeedMore(old(ch.Value()), Texts(lines), Texts(some));
      lines := lines + some;
    }
  }

  // A fresh response, and the stream for it.
  method GatherStream(reader: LineReader.LineReader, ch: AtChannel, c: Command) returns (r: ATResponse, lines: seq<Lines.Line>)
    requires reader.Valid() && 0 !in reader.fd.unread && ch.slot == null
    requires Lines.Tame(reader.Remaining(), LineReader.MAX_AT_RESPONSE)
    modifies reader, reader.buffer, reader.fd, ch
    ensures reader.Valid() && ch.slot == r && r.Valid() && fresh(r) && fresh(set n | n in r.nodes)
    ensures Lines.Split(old(reader.Remaining())) == lines + Lines.Split(reader.Remaining())
    ensures !reader.fd.failed || reader.fd.unread == [] ==> lines == Lines.Split(old(reader.Remaining()))
    ensures old(reader.fd.Steady()) ==> reader.fd.Steady()
    ensures Answered(c, Processed(Texts(lines)), r.Value())
  {
    ghost var before := ch.Value();
    r := ch.Open(c);
    lines := ReaderLoop(reader, ch);
    FeedAnswers(before, c, Texts(lines));
  }

  /** From the bytes of the modem to the response of a command: its intermediate
      lines are those it is due among the lines of the stream, in order of
      arrival, and its result the latest final one; the lines are all of the
      stream's unless a read has failed. */
  method ServeStream(reader: LineReader.LineReader, ch: AtChannel, c: Command) returns (r: ATResponse, lines: seq<Lines.Line>)
    requires reader.Valid() && 0 !in reader.fd.unread && ch.slot == null
    requires Lines.Tame(reader.Remaining(), LineReader.MAX_AT_RESPONSE)
    modifies reader, reader.buffer, reader.fd, ch
    ensures reader.Valid() && r.Valid() && fresh(r)
    ensures lines <= Lines.Split(old(reader.Remaining()))
    ensures !reader.fd.failed || reader.fd.unread == [] ==> lines == Lines.Split(old(reader.Remaining()))
    ensures old(reader.fd.Steady()) ==> reader.fd.Steady()
    ensures Due(c, Processed(Texts(lines)), r.Value())
    ensures ch.slot == null && ch.prefix == "" && ch.pdu.None?
  {
    r, lines := GatherStream(reader, ch, c);
    ch.HandBack(r, c, Processed(Texts(lines)));
  }
}
