/** A command that is served: a call can always run to its end on an open channel,
    and gets what it is due. */
module AtService {
  import opened Basics
  import opened AtCommand
  import opened AtProtocol

  lemma {:induction false} ReachesAppend(a: State, x: seq<Step>, b: State, y: seq<Step>, c: State)
    requires Reaches(a, x, b) && Reaches(b, y, c)
    ensures Reaches(a, x + y, c)
    decreases |x|
  {
    if x == [] {
      assert x + y == y;
    } else {
      assert (x + y)[1..] == x[1..] + y;
      ReachesAppend(Apply(a, x[0]), x[1..], b, y, c);
    }
  }

  lemma OneStep(s: State, step: Step)
    requires Enabled(s, step)
    ensures Reaches(s, [step], Apply(s, step))
  {
    assert [step][1..] == [];
  }

  /** Nobody holds a mutex, and the channel is open. */
  predicate Quiet(s: State) {
    s.writeMutex.None? && s.commandMutex.None? && s.reader.Reading? && s.fdOpen && !s.readerClosed
  }

  // The steps of the reader for one line after another.
  function LineSteps(lines: seq<string>): seq<Step> {
    if lines == [] then []
    else LineSteps(lines[..|lines| - 1]) + [ReaderLock(lines[|lines| - 1]), ReaderProcess, ReaderUnlock]
  }

  // What lines do to a state in which a command is pending.
  function Arrived(s: State, lines: seq<string>): State {
    s.(ch := ProcessAll(s.ch, lines), lines := s.lines + lines)
  }

  lemma {:induction false} SlotStays(ch: Channel, lines: seq<string>)
    requires ch.slot.Some?
    ensures ProcessAll(ch, lines).slot.Some?
  {
    if lines != [] { SlotStays(ch, lines[..|lines| - 1]); }
  }

  lemma LineArrives(s: State, line: string)
    requires s.reader.Reading? && s.commandMutex.None? && s.ch.slot.Some?
    ensures Reaches(s, [ReaderLock(line), ReaderProcess, ReaderUnlock], s.(ch := Process(s.ch, line), lines := s.lines + [line]))
  {
    var steps := [ReaderLock(line), ReaderProcess, ReaderUnlock];
    var a := Apply(s, ReaderLock(line));
    var b := Apply(a, ReaderProcess);
    assert steps[1..] == [ReaderProcess, ReaderUnlock] && steps[1..][1..] == [ReaderUnlock] && steps[1..][1..][1..] == [];
    assert Reaches(Apply(b, ReaderUnlock), [], Apply(b, ReaderUnlock));
    assert Reaches(b, [ReaderUnlock], Apply(b, ReaderUnlock));
    assert Reaches(a, [ReaderProcess, ReaderUnlock], Apply(b, ReaderUnlock));
  }

  lemma {:induction false} LinesArrive(s: State, lines: seq<string>)
    requires s.reader.Reading? && s.commandMutex.None? && s.ch.slot.Some?
    ensures Reaches(s, LineSteps(lines), Arrived(s, lines))
  {
    if lines == [] {
      assert s.lines + [] == s.lines;
    } else {
      var n := |lines| - 1;
      var front := Arrived(s, lines[..n]);
      LinesArrive(s, lines[..n]);
      SlotStays(s.ch, lines[..n]);
      LineArrives(front, lines[n]);
      assert s.lines + lines[..n] + [lines[n]] == s.lines + lines;
      ReachesAppend(s, LineSteps(lines[..n]), front, [ReaderLock(lines[n]), ReaderProcess, ReaderUnlock], Arrived(s, lines));
    }
  }

  // Both mutexes, the command line, and the first test of the wait loop.
  lemma Waits(s: State, t: nat, call: Call) returns (steps: seq<Step>)
    requires Quiet(s) && t < |s.pcs| && s.pcs[t].Idle? && IsInterfaceCall(call) && s.ch.slot.None?
    ensures Reaches(s, steps, Pending(s, t, call))
  {
    var a := Apply(s, LockWrite(t, call));
    var b := Apply(a, LockCommand(t));
    var c := Apply(b, Enter(t, true));
    OneStep(s, LockWrite(t, call));
    OneStep(a, LockCommand(t));
    OneStep(b, Enter(t, true));
    OneStep(c, Check(t));
    assert Apply(c, Check(t)) == Pending(s, t, call);
    ReachesAppend(s, [LockWrite(t, call)], a, [LockCommand(t)], b);
    ReachesAppend(s, [LockWrite(t, call)] + [LockCommand(t)], b, [Enter(t, true)], c);
    steps := [LockWrite(t, call)] + [LockCommand(t)] + [Enter(t, true)] + [Check(t)];
    ReachesAppend(s, [LockWrite(t, call)] + [LockCommand(t)] + [Enter(t, true)], c, [Check(t)], Pending(s, t, call));
  }

  // The thread waits for the response of its command.
  function Pending(s: State, t: nat, call: Call): State
    requires t < |s.pcs|
  {
    At(s, t, Waiting(call, 0)).(
      writeMutex := Some(t), ch := Opened(s.ch, call.command), slotId := Some(s.next), next := s.next + 1,
      lines := [], pdusBefore := |s.ch.pdusWritten|)
  }

  // The thread's own steps once a final result is there.
  lemma Finishes(s: State, t: nat, call: Call, n: nat) returns (steps: seq<Step>, end: State)
    requires t < |s.pcs| && s.pcs[t] == Waiting(call, n) && s.commandMutex.None? && !s.readerClosed
    requires s.ch.slot.Some? && s.ch.slot.value.final.Some? && s.slotId.Some?
    ensures Reaches(s, steps, end) && end.pcs == s.pcs[t := Idle]
    ensures |end.done| == |s.done| + 1 && end.done[..|s.done|] == s.done
    ensures var d := end.done[|s.done|];
            && d.0 == call && d.1.lines == s.lines && (d.1.err == Ok || d.1.err == InvalidResponse)
  {
    var a := Apply(s, Wake(t, false));
    var b := Apply(a, Check(t));
    OneStep(s, Wake(t, false));
    OneStep(a, Check(t));
    ReachesAppend(s, [Wake(t, false)], a, [Check(t)], b);
    var last;
    last, end := Returns(b, t);
    steps := [Wake(t, false)] + [Check(t)] + last;
    ReachesAppend(s, [Wake(t, false)] + [Check(t)], b, last, end);
  }

  // Out of ..._nolock, past the mutexes and the wrapper.
  lemma Returns(s: State, t: nat) returns (steps: seq<Step>, end: State)
    requires t < |s.pcs| && s.pcs[t].Returned? && s.pcs[t].report.err == Ok
    ensures Reaches(s, steps, end) && end.pcs == s.pcs[t := Idle]
    ensures |end.done| == |s.done| + 1 && end.done[..|s.done|] == s.done
    ensures var d := end.done[|s.done|];
            && d.0 == s.pcs[t].call && d.1.lines == s.pcs[t].report.lines && (d.1.err == Ok || d.1.err == InvalidResponse)
  {
    var Returned(call, n, report) := s.pcs[t];
    var a := Apply(s, Leave(t));
    Leaves(s, t);
    var b := Apply(a, UnlockWrite(t));
    OneStep(s, Leave(t));
    OneStep(a, UnlockWrite(t));
    ReachesAppend(s, [Leave(t)], a, [UnlockWrite(t)], b);
    end := Wraps(b, t);
    steps := [Leave(t)] + [UnlockWrite(t)] + [Wrap(t)];
    ReachesAppend(s, [Leave(t)] + [UnlockWrite(t)], b, [Wrap(t)], end);
    assert s.pcs[t := Unlocking(call, report)][t := Wrapping(call, report)][t := Idle] == s.pcs[t := Idle];
  }

  lemma Leaves(s: State, t: nat)
    requires t < |s.pcs| && s.pcs[t].Returned? && s.pcs[t].report.err == Ok
    ensures Apply(s, Leave(t)) == At(s, t, Unlocking(s.pcs[t].call, s.pcs[t].report)).(commandMutex := None)
  {}

  lemma Wraps(s: State, t: nat) returns (end: State)
    requires t < |s.pcs| && s.pcs[t].Wrapping? && s.pcs[t].report.err == Ok
    ensures Reaches(s, [Wrap(t)], end) && end.pcs == s.pcs[t := Idle]
    ensures |end.done| == |s.done| + 1 && end.done[..|s.done|] == s.done
    ensures var d := end.done[|s.done|];
            && d.0 == s.pcs[t].call && d.1.lines == s.pcs[t].report.lines && (d.1.err == Ok || d.1.err == InvalidResponse)
  {
    end := Apply(s, Wrap(t));
    OneStep(s, Wrap(t));
  }

  /** A closed channel releases whoever waits for a response. */
  lemma ClosingReleases(s: State, t: nat) returns (end: State)
    requires Inv(s) && t < |s.pcs| && s.pcs[t].Waiting? && s.commandMutex.None? && s.readerClosed
    ensures Reaches(s, [Wake(t, false)] + [Check(t)], end)
    ensures t < |end.pcs| && end.pcs[t].Returned? && end.pcs[t].report.err == ChannelClosed && end.ch.slot.None?
  {
    var a := Apply(s, Wake(t, false));
    StepKeepsInv(s, Wake(t, false));
    CheckIsEnabled(a, t);
    end := Apply(a, Check(t));
    OneStep(s, Wake(t, false));
    OneStep(a, Check(t));
    ReachesAppend(s, [Wake(t, false)], a, [Check(t)], end);
  }

  /** Whatever lines the modem sends, a final result among them, a call made on
      an open channel can run to its end, and then its caller has the response
      that is due among these lines; or, if the call insists on a line and the
      command succeeded without one, is told so. */
  lemma CallIsServed(s: State, t: nat, call: Call, lines: seq<string>) returns (steps: seq<Step>, end: State)
    requires Inv(s) && Quiet(s) && t < |s.pcs| && s.pcs[t].Idle? && IsInterfaceCall(call) && LastFinal(lines).Some?
    ensures Reaches(s, steps, end) && Inv(end) && end.pcs == s.pcs && |end.done| == |s.done| + 1
    ensures var (c, report, r) := end.done[|s.done|];
            && c == call && report.lines == lines
            && report.err == (if LacksLine(call, lines) then InvalidResponse else Ok)
            && (report.err == Ok && call.wantsOut ==> r.Some? && Due(call.command, lines, r.value))
  {
    assert s.ch.slot.None?;
    var before := Waits(s, t, call);
    var p := Pending(s, t, call);
    var q := Arrived(p, lines);
    LinesArrive(p, lines);
    ProcessAllAnswers(s.ch, call.command, lines);
    assert q.ch.slot.value.final == LastFinal(lines);
    assert [] + lines == lines;
    var after;
    after, end := Finishes(q, t, call, 0);
    ReachesAppend(s, before, p, LineSteps(lines), q);
    steps := before + LineSteps(lines) + after;
    ReachesAppend(s, before + LineSteps(lines), q, after, end);
    RunKeepsInv(s, steps, end);
    assert s.pcs[t := Waiting(call, 0)][t := Idle] == s.pcs;
    assert GoodResult(end.done[|s.done|].0, end.done[|s.done|].1, end.done[|s.done|].2);
  }
}
