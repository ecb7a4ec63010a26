/** What a call on the AT channel comes back with, over every interleaving. */
module AtErrors {
  import opened Basics
  import opened AtCommand
  import opened AtProtocol

  // ---------------------------------------------------------------- what the steps of a run were

  /** Of a thread's present call: its tries so far, and of the last one whether
      the channel was closed when it began, whether its command line was written,
      whether it timed out, and whether the reader was gone when it last looked
      for its response. */
  datatype Trail = Trail(tries: nat, shut: bool, wrote: bool, timedOut: bool, late: bool)

  /** What can be told from the steps alone: the trail of each thread, those of
      the finished calls, and how the channel has been closed so far. */
  datatype History = History(trails: seq<Trail>, calls: seq<Trail>, fdClosed: bool, flagged: bool)

  const NO_TRAIL := Trail(0, false, false, false, false)

  function Note(h: History, step: Step): History {
    match step
    case LockCommand(t) => if t < |h.trails| then h.(trails := h.trails[t := NO_TRAIL]) else h
    case Enter(t, writes) =>
      if t < |h.trails|
      then h.(trails := h.trails[t := Trail(h.trails[t].tries + 1, h.fdClosed || h.flagged, writes, false, false)])
      else h
    case Check(t) => if t < |h.trails| then h.(trails := h.trails[t := h.trails[t].(late := h.flagged)]) else h
    case Wake(t, timedOut) => if t < |h.trails| && timedOut then h.(trails := h.trails[t := h.trails[t].(timedOut := true)]) else h
    case Wrap(t) => if t < |h.trails| then h.(calls := h.calls + [h.trails[t]]) else h
    case ReaderEof(handlerSet) => h.(flagged := h.flagged || handlerSet)
    case CloseFd => h.(fdClosed := true)
    case CloseFlag => h.(flagged := true)
    case _ => h
  }

  function NoteAll(h: History, steps: seq<Step>): History
    decreases |steps|
  {
    if steps == [] then h else NoteAll(Note(h, steps[0]), steps[1..])
  }

  // Before anything has happened to n threads.
  function Blank(n: nat): History {
    History(seq(n, _ => NO_TRAIL), [], false, false)
  }

  // ---------------------------------------------------------------- errors and their causes

  /** What the last try of a call comes to. */
  function Verdict(trail: Trail): Error {
    if trail.shut then ChannelClosed
    else if !trail.wrote then Generic
    else if trail.timedOut then TimedOut
    else if trail.late then ChannelClosed
    else Ok
  }

  /** It went on after an error while it had tries left, and after nothing else. */
  predicate Tried(call: Call, trail: Trail) {
    if Verdict(trail) == Ok then 1 <= trail.tries <= call.tries else 1 <= trail.tries == call.tries
  }

  // A try whose command line has gone out and that waits for its response.
  predicate Underway(call: Call, n: nat, trail: Trail) {
    trail.tries == n + 1 <= call.tries && !trail.shut && trail.wrote && !trail.timedOut && !trail.late
  }

  predicate TrailKept(pc: Pc, trail: Trail) {
    match pc
    case Idle => true
    case HasWrite(_) => true
    case Entering(call, n) => trail.tries == n < call.tries
    case Checking(call, n) => Underway(call, n, trail)
    case Waiting(call, n) => Underway(call, n, trail)
    case Returned(call, n, report) =>
      trail.tries == n + 1 <= call.tries && report.err == Verdict(trail) && (trail.timedOut ==> call.timed)
    case Unlocking(call, report) => Settled(call, report, trail)
    case Wrapping(call, report) => Settled(call, report, trail)
  }

  predicate Settled(call: Call, report: Report, trail: Trail) {
    IsInterfaceCall(call) && report.err == Verdict(trail) && Tried(call, trail) && (trail.timedOut ==> call.timed)
  }

  predicate CallKept(done: (Call, Report, Option<Response>), trail: Trail) {
    && Settled(done.0, done.1.(err := if done.1.err == InvalidResponse then Ok else done.1.err), trail)
  }

  predicate TrailKeptAt(s: State, h: History, t: nat) {
    t < |s.pcs| && t < |h.trails| && TrailKept(s.pcs[t], h.trails[t])
  }

  ghost predicate TrailsKept(s: State, h: History) {
    |h.trails| == |s.pcs| && forall t :: 0 <= t < |s.pcs| ==> TrailKept(s.pcs[t], h.trails[t])
  }

  ghost predicate CallsKept(s: State, h: History) {
    |h.calls| == |s.done| && forall i :: 0 <= i < |s.done| ==> CallKept(s.done[i], h.calls[i])
  }

  /** The channel has been closed as the steps say. */
  predicate ClosedAs(s: State, h: History) {
    h.fdClosed == !s.fdOpen && h.flagged == s.readerClosed
  }

  ghost predicate Kept(s: State, h: History) {
    TrailsKept(s, h) && CallsKept(s, h) && ClosedAs(s, h)
  }

  // At most the element at t changes.
  predicate OnlyOf<T(==)>(before: seq<T>, after: seq<T>, t: nat) {
    t < |before| == |after| && after == before[t := after[t]]
  }

  // One thread moves; the others' trails stay good.
  lemma MoveTrail(s: State, h: History, s': State, h': History, t: nat)
    requires TrailsKept(s, h) && OnlyOf(s.pcs, s'.pcs, t) && OnlyOf(h.trails, h'.trails, t)
    requires TrailKeptAt(s', h', t)
    ensures TrailsKept(s', h')
  {}

  // The thread that a step moves.
  function Mover(step: Step): Option<nat> {
    match step
    case LockWrite(t, _) => Some(t)
    case LockCommand(t) => Some(t)
    case Enter(t, _) => Some(t)
    case Check(t) => Some(t)
    case Wake(t, _) => Some(t)
    case Leave(t) => Some(t)
    case UnlockWrite(t) => Some(t)
    case Wrap(t) => Some(t)
    case _ => None
  }

  // The slot is empty where a command is about to start.
  lemma EntersEmpty(s: State, t: nat)
    requires Inv(s) && t < |s.pcs| && s.pcs[t].Entering?
    ensures s.ch.slot.None? && IsInterfaceCall(s.pcs[t].call)
  {
    assert s.writeMutex == Some(t);
  }

  // What the trail of the thread that a step moves must be like before it.
  predicate MayMove(s: State, h: History, step: Step, t: nat) {
    && Enabled(s, step) && Mover(step) == Some(t) && t < |s.pcs| == |h.trails|
    && TrailKept(s.pcs[t], h.trails[t]) && ClosedAs(s, h)
    && (s.pcs[t].Entering? ==> s.ch.slot.None?) && (!s.pcs[t].Idle? ==> IsInterfaceCall(s.pcs[t].call))
  }

  lemma EnterTrail(s: State, h: History, t: nat, writes: bool)
    requires MayMove(s, h, Enter(t, writes), t)
    ensures TrailKeptAt(DoEnter(s, t, writes), Note(h, Enter(t, writes)), t)
  {}

  lemma CheckTrail(s: State, h: History, t: nat)
    requires MayMove(s, h, Check(t), t)
    ensures TrailKeptAt(DoCheck(s, t), Note(h, Check(t)), t)
  {}

  lemma WakeTrail(s: State, h: History, t: nat, timedOut: bool)
    requires MayMove(s, h, Wake(t, timedOut), t)
    ensures TrailKeptAt(DoWake(s, t, timedOut), Note(h, Wake(t, timedOut)), t)
  {}

  lemma LeaveTrail(s: State, h: History, t: nat)
    requires MayMove(s, h, Leave(t), t)
    ensures TrailKeptAt(DoLeave(s, t), Note(h, Leave(t)), t)
  {}

  // Where the moving thread goes, its trail is good.
  lemma MovedTrail(s: State, h: History, step: Step, t: nat)
    requires MayMove(s, h, step, t)
    ensures TrailKeptAt(Apply(s, step), Note(h, step), t)
  {
    match step {
      case Enter(_, writes) => EnterTrail(s, h, t, writes);
      case Check(_) => CheckTrail(s, h, t);
      case Wake(_, timedOut) => WakeTrail(s, h, t, timedOut);
      case Leave(_) => LeaveTrail(s, h, t);
      case _ => MutexTrail(s, h, step, t);
    }
  }

  lemma MutexTrail(s: State, h: History, step: Step, t: nat)
    requires MayMove(s, h, step, t) && (step.LockWrite? || step.LockCommand? || step.UnlockWrite? || step.Wrap?)
    ensures TrailKeptAt(Apply(s, step), Note(h, step), t)
  {}

  // Only its thread moves ...
  lemma OnlyMover(s: State, step: Step, t: nat)
    requires Enabled(s, step) && Mover(step) == Some(t)
    ensures OnlyOf(s.pcs, Apply(s, step).pcs, t)
  {
    match step {
      case Enter(_, writes) => EnterMoves(s, t, writes);
      case Check(_) => CheckMoves(s, t);
      case Wake(_, timedOut) => WakeMoves(s, t, timedOut);
      case _ =>
    }
  }

  lemma EnterMoves(s: State, t: nat, writes: bool)
    requires Enabled(s, Enter(t, writes))
    ensures OnlyOf(s.pcs, DoEnter(s, t, writes).pcs, t)
  {}

  lemma CheckMoves(s: State, t: nat)
    requires Enabled(s, Check(t))
    ensures OnlyOf(s.pcs, DoCheck(s, t).pcs, t)
  {}

  lemma WakeMoves(s: State, t: nat, timedOut: bool)
    requires Enabled(s, Wake(t, timedOut))
    ensures OnlyOf(s.pcs, DoWake(s, t, timedOut).pcs, t)
  {}

  // ... and only its trail is noted.
  lemma OnlyNoted(h: History, step: Step, t: nat)
    requires Mover(step) == Some(t) && t < |h.trails|
    ensures OnlyOf(h.trails, Note(h, step).trails, t)
  {}

  // The reader and the client move no thread.
  lemma NoMover(s: State, h: History, step: Step)
    requires Enabled(s, step) && Mover(step).None?
    ensures var s', h' := Apply(s, step), Note(h, step);
            s'.pcs == s.pcs && s'.done == s.done && h'.trails == h.trails && h'.calls == h.calls
  {}

  lemma StepTrails(s: State, h: History, step: Step)
    requires Inv(s) && Kept(s, h) && Enabled(s, step)
    ensures TrailsKept(Apply(s, step), Note(h, step))
  {
    if Mover(step).Some? {
      var t := Mover(step).value;
      OnlyMover(s, step, t);
      OnlyNoted(h, step, t);
      if s.pcs[t].Entering? { EntersEmpty(s, t); }
      MovedTrail(s, h, step, t);
      MoveTrail(s, h, Apply(s, step), Note(h, step), t);
    } else {
      NoMover(s, h, step);
      TrailsStay(s, h, Apply(s, step), Note(h, step));
    }
  }

  lemma TrailsStay(s: State, h: History, s': State, h': History)
    requires TrailsKept(s, h) && s'.pcs == s.pcs && h'.trails == h.trails
    ensures TrailsKept(s', h')
  {
    forall t | 0 <= t < |s.pcs| ensures TrailKept(s'.pcs[t], h'.trails[t]) {
      assert TrailKept(s.pcs[t], h.trails[t]);
    }
  }

  lemma StepCalls(s: State, h: History, step: Step)
    requires TrailsKept(s, h) && CallsKept(s, h) && Enabled(s, step)
    ensures CallsKept(Apply(s, step), Note(h, step))
  {
    if step.Wrap? {
      assert TrailKept(s.pcs[step.t], h.trails[step.t]);
      assert Apply(s, step) == DoWrap(s, step.t);
    } else {
      if Mover(step).Some? {
        MoverFinishes(s, step);
        MoverNotes(h, step);
      } else {
        NoMover(s, h, step);
      }
      CallsStay(s, h, Apply(s, step), Note(h, step));
    }
  }

  // Nothing is finished, and nothing closes the channel.
  predicate NoneDone(s: State, s': State) {
    s'.done == s.done && s'.readerClosed == s.readerClosed && s'.fdOpen == s.fdOpen
  }

  // Among the threads' steps only the wrapper's finishes a call, and none closes
  // the channel.
  lemma MoverFinishes(s: State, step: Step)
    requires Enabled(s, step) && Mover(step).Some?
    ensures Apply(s, step).readerClosed == s.readerClosed && Apply(s, step).fdOpen == s.fdOpen
    ensures !step.Wrap? ==> NoneDone(s, Apply(s, step))
  {
    match step {
      case Enter(t, writes) => EnterFinishes(s, t, writes);
      case Check(t) => CheckFinishes(s, t);
      case Wake(t, timedOut) => WakeFinishes(s, t, timedOut);
      case Leave(t) => LeaveFinishes(s, t);
      case Wrap(t) => WrapCloses(s, t);
      case _ =>
    }
  }

  lemma MoverNotes(h: History, step: Step)
    requires Mover(step).Some?
    ensures Note(h, step).fdClosed == h.fdClosed && Note(h, step).flagged == h.flagged
    ensures !step.Wrap? ==> Note(h, step).calls == h.calls
  {}

  lemma EnterFinishes(s: State, t: nat, writes: bool)
    requires Enabled(s, Enter(t, writes))
    ensures NoneDone(s, DoEnter(s, t, writes))
  {}

  lemma CheckFinishes(s: State, t: nat)
    requires Enabled(s, Check(t))
    ensures NoneDone(s, DoCheck(s, t))
  {}

  lemma WakeFinishes(s: State, t: nat, timedOut: bool)
    requires Enabled(s, Wake(t, timedOut))
    ensures NoneDone(s, DoWake(s, t, timedOut))
  {}

  lemma LeaveFinishes(s: State, t: nat)
    requires Enabled(s, Leave(t))
    ensures NoneDone(s, DoLeave(s, t))
  {}

  lemma WrapCloses(s: State, t: nat)
    requires Enabled(s, Wrap(t))
    ensures DoWrap(s, t).readerClosed == s.readerClosed && DoWrap(s, t).fdOpen == s.fdOpen
  {}

  // What closes the channel is noted.
  lemma ClosingNoted(s: State, h: History, step: Step)
    requires Enabled(s, step) && ClosedAs(s, h)
    ensures ClosedAs(Apply(s, step), Note(h, step))
  {
    if Mover(step).Some? {
      MoverFinishes(s, step);
      MoverNotes(h, step);
    }
  }

  lemma CallsStay(s: State, h: History, s': State, h': History)
    requires CallsKept(s, h) && s'.done == s.done && h'.calls == h.calls
    ensures CallsKept(s', h')
  {
    forall i | 0 <= i < |s.done| ensures CallKept(s'.done[i], h'.calls[i]) {
      assert CallKept(s.done[i], h.calls[i]);
    }
  }

  lemma StepKeeps(s: State, h: History, step: Step)
    requires Inv(s) && Kept(s, h) && Enabled(s, step)
    ensures Kept(Apply(s, step), Note(h, step))
  {
    StepTrails(s, h, step);
    StepCalls(s, h, step);
    ClosingNoted(s, h, step);
  }

  lemma {:induction false} RunKeeps(s: State, h: History, steps: seq<Step>, end: State)
    requires Inv(s) && Kept(s, h) && Reaches(s, steps, end)
    ensures Inv(end) && Kept(end, NoteAll(h, steps))
    decreases |steps|
  {
    if steps != [] {
      StepKeeps(s, h, steps[0]);
      StepKeepsInv(s, steps[0]);
      RunKeeps(Apply(s, steps[0]), Note(h, steps[0]), steps[1..], end);
    }
  }

  // What a call reports is what its last try came to, or a missing line.
  lemma ReportedExactly(call: Call, report: Report, r: Option<Response>, trail: Trail)
    requires CallKept((call, report, r), trail) && GoodResult(call, report, r)
    ensures report.err == if Verdict(trail) == Ok && LacksLine(call, report.lines) then InvalidResponse else Verdict(trail)
  {
    if report.err == Ok && call.wantsOut { assert Due(call.command, report.lines, r.value); }
  }

  /** Over every run, what a finished call reports is told by the steps of its
      last try and its lines, and by nothing else: a closed channel if it was
      closed when the try began, or the reader was gone when the call last looked
      for its response; a generic error if the write failed; a time-out if the
      wait, of a timed call only, timed out; otherwise success, or a missing line
      for a successful command without the one it insists on.  An error is
      reported only of the last try that the call has. */
  lemma ReportsAreDue(start: State, steps: seq<Step>, s: State)
    requires Init(start) && Reaches(start, steps, s)
    ensures var h := NoteAll(Blank(|start.pcs|), steps);
            |h.calls| == |s.done|
            && forall i :: 0 <= i < |s.done| ==>
                 var (call, report, _) := s.done[i];
                 && report.err == (if Verdict(h.calls[i]) == Ok && LacksLine(call, report.lines) then InvalidResponse else Verdict(h.calls[i]))
                 && Tried(call, h.calls[i]) && (h.calls[i].timedOut ==> call.timed)
  {
    var h := NoteAll(Blank(|start.pcs|), steps);
    InitInv(start);
    RunKeeps(start, Blank(|start.pcs|), steps, s);
    forall i | 0 <= i < |s.done|
      ensures var (call, report, _) := s.done[i];
              && report.err == (if Verdict(h.calls[i]) == Ok && LacksLine(call, report.lines) then InvalidResponse else Verdict(h.calls[i]))
              && Tried(call, h.calls[i]) && (h.calls[i].timedOut ==> call.timed)
    {
      assert CallKept(s.done[i], h.calls[i]);
      assert GoodResult(s.done[i].0, s.done[i].1, s.done[i].2);
      ReportedExactly(s.done[i].0, s.done[i].1, s.done[i].2, h.calls[i]);
    }
  }

  // ---------------------------------------------------------------- without a cause

  /** Nothing closes the channel, fails to write, or times out. */
  predicate Calm(step: Step) {
    && !step.CloseFd? && !step.CloseFlag? && step != ReaderEof(true)
    && (step.Enter? ==> step.writes) && (step.Wake? ==> !step.timedOut)
  }

  ghost predicate AllCalm(steps: seq<Step>) {
    forall i :: 0 <= i < |steps| ==> Calm(steps[i])
  }

  predicate CalmTrail(trail: Trail) {
    !trail.shut && !trail.timedOut && !trail.late && (trail.tries > 0 ==> trail.wrote)
  }

  ghost predicate CalmHistory(h: History) {
    && !h.fdClosed && !h.flagged
    && (forall t :: 0 <= t < |h.trails| ==> CalmTrail(h.trails[t]))
    && (forall i :: 0 <= i < |h.calls| ==> CalmTrail(h.calls[i]))
  }

  lemma {:induction false} CalmStays(h: History, steps: seq<Step>)
    requires CalmHistory(h) && AllCalm(steps)
    ensures CalmHistory(NoteAll(h, steps))
    decreases |steps|
  {
    if steps != [] {
      assert Calm(steps[0]);
      forall i | 0 <= i < |steps[1..]| ensures Calm(steps[1..][i]) { assert Calm(steps[i + 1]); }
      CalmStays(Note(h, steps[0]), steps[1..]);
    }
  }

  /** In a run without a cause for an error every finished call has succeeded, or
      lacks the line it insists on. */
  lemma CalmRunsSucceed(start: State, steps: seq<Step>, s: State)
    requires Init(start) && Reaches(start, steps, s) && AllCalm(steps)
    ensures forall i :: 0 <= i < |s.done| ==>
              s.done[i].1.err == if LacksLine(s.done[i].0, s.done[i].1.lines) then InvalidResponse else Ok
  {
    var h := NoteAll(Blank(|start.pcs|), steps);
    ReportsAreDue(start, steps, s);
    CalmStays(Blank(|start.pcs|), steps);
    forall i | 0 <= i < |s.done|
      ensures s.done[i].1.err == if LacksLine(s.done[i].0, s.done[i].1.lines) then InvalidResponse else Ok
    {
      assert CalmTrail(h.calls[i]) && Tried(s.done[i].0, h.calls[i]);
    }
  }
}
