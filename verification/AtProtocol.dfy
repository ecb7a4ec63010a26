/** The AT channel's threads within one session: command threads and the reader
    around the two mutexes and the condition variable
    (reference-ril/atchannel.c). */
module AtProtocol {
  import opened Basics
  import opened AtCommand

  type Id = nat  // a response object, by order of allocation

  const HANDSHAKE_RETRY_COUNT: nat := 8

  datatype Error = Ok | Generic | CommandPending | ChannelClosed | TimedOut | InvalidResponse

  /** One call of the interface: at most `tries` attempts (more than one only
      for the handshake), and whether the caller wants the response and insists
      on an intermediate line. */
  datatype Call = Call(command: Command, timed: bool, tries: nat, wantsOut: bool, needsLine: bool)

  function AtSendCommand(wantsOut: bool): Call {
    Call(Command(NoResult, "", None), false, 1, wantsOut, false)
  }

  function AtSendSingleline(prefix: string, wantsOut: bool): Call {
    Call(Command(SingleLine, prefix, None), false, 1, wantsOut, true)
  }

  function AtSendNumeric(wantsOut: bool): Call {
    Call(Command(Numeric, "", None), false, 1, wantsOut, true)
  }

  function AtSendSms(pdu: string, prefix: string, wantsOut: bool): Call {
    Call(Command(SingleLine, prefix, Some(pdu)), false, 1, wantsOut, true)
  }

  function AtSendMultiline(prefix: string, wantsOut: bool): Call {
    Call(Command(MultiLine, prefix, None), false, 1, wantsOut, false)
  }

  const AT_HANDSHAKE: Call := Call(Command(NoResult, "", None), true, HANDSHAKE_RETRY_COUNT, false, false)

  /** The calls the interface can make. */
  predicate IsInterfaceCall(call: Call) {
    || call == AtSendCommand(call.wantsOut)
    || call == AtSendSingleline(call.command.prefix, call.wantsOut)
    || call == AtSendNumeric(call.wantsOut)
    || (call.command.pdu.Some? && call == AtSendSms(call.command.pdu.value, call.command.prefix, call.wantsOut))
    || call == AtSendMultiline(call.command.prefix, call.wantsOut)
    || call == AT_HANDSHAKE
  }

  /** What a call has come to: its error, the response object handed out, and
      the lines processed and PDUs written during its last attempt. */
  datatype Report = Report(err: Error, out: Option<Id>, lines: seq<string>, pdus: nat)

  datatype Pc =
    | Idle
    | HasWrite(call: Call)                               // holds s_writeMutex
    | Entering(call: Call, attempt: nat)                 // both; at the top of ..._nolock
    | Checking(call: Call, attempt: nat)                 // both; at the test of the wait loop
    | Waiting(call: Call, attempt: nat)                  // in the condition wait
    | Returned(call: Call, attempt: nat, report: Report) // both; ..._nolock has returned
    | Unlocking(call: Call, report: Report)              // s_writeMutex only
    | Wrapping(call: Call, report: Report)               // neither; in the wrapper

  datatype Holder = Thread(t: nat) | Reader

  datatype ReaderPc = Reading | Locked(line: string) | Processed | Gone

  datatype State = State(
    pcs: seq<Pc>,
    reader: ReaderPc,
    writeMutex: Option<nat>,
    commandMutex: Option<Holder>,
    ch: Channel,
    slotId: Option<Id>,             // which object sp_response is
    fdOpen: bool,
    readerClosed: bool,
    next: Id,                       // the next object to allocate
    callers: map<Id, Response>,     // objects handed to callers
    freed: set<Id>,
    lines: seq<string>,             // processed since the slot was filled
    pdusBefore: nat,                // PDUs written before that
    done: seq<(Call, Report, Option<Response>)>)  // finished calls and what they got

  datatype Step =
    | LockWrite(t: nat, call: Call)
    | LockCommand(t: nat)
    | Enter(t: nat, writes: bool)
    | Check(t: nat)
    | Wake(t: nat, timedOut: bool)
    | Leave(t: nat)
    | UnlockWrite(t: nat)
    | Wrap(t: nat)
    | ReaderLock(line: string)
    | ReaderProcess
    | ReaderUnlock
    | ReaderSms(line1: string)
    | ReaderEof(handlerSet: bool)
    | CloseFd
    | CloseFlag
    | ClientFree(id: Id)

  // ---------------------------------------------------------------- the steps

  /** clearPendingCommand */
  function Clear(s: State): State {
    s.(freed := if s.slotId.Some? then s.freed + {s.slotId.value} else s.freed,
       slotId := None,
       ch := s.ch.(slot := None, prefix := "", pdu := None))
  }

  function At(s: State, t: nat, pc: Pc): State
    requires t < |s.pcs|
  {
    s.(pcs := s.pcs[t := pc])
  }

  function ReportNow(s: State, err: Error, out: Option<Id>): Report {
    Report(err, out, s.lines, if |s.ch.pdusWritten| >= s.pdusBefore then |s.ch.pdusWritten| - s.pdusBefore else 0)
  }

  // ..._nolock up to its wait loop: refused when a response is pending
  function DoEnter(s: State, t: nat, writes: bool): State
    requires t < |s.pcs| && s.pcs[t].Entering?
  {
    var Entering(call, n) := s.pcs[t];
    if s.ch.slot.Some? then
      At(Clear(s), t, Returned(call, n, Report(CommandPending, None, [], 0)))
    else if !s.fdOpen || s.readerClosed then
      At(Clear(s), t, Returned(call, n, Report(ChannelClosed, None, [], 0)))
    else if !writes then
      At(Clear(s), t, Returned(call, n, Report(Generic, None, [], 0)))
    else
      At(s, t, Checking(call, n)).(
        ch := Opened(s.ch, call.command), slotId := Some(s.next), next := s.next + 1,
        lines := [], pdusBefore := |s.ch.pdusWritten|)
  }

  // the wait loop's test and what follows the loop
  function DoCheck(s: State, t: nat): State
    requires t < |s.pcs| && s.pcs[t].Checking? && s.ch.slot.Some? && s.slotId.Some?
  {
    var Checking(call, n) := s.pcs[t];
    if s.ch.slot.value.final.None? && !s.readerClosed then
      At(s, t, Waiting(call, n)).(commandMutex := None)
    else
      var s' := if call.wantsOut
                then s.(callers := s.callers[s.slotId.value := s.ch.slot.value.(stored := Reverse(s.ch.slot.value.stored))])
                else s.(freed := s.freed + {s.slotId.value});
      var err := if s.readerClosed then ChannelClosed else Ok;
      var report := ReportNow(s, err, if call.wantsOut then s.slotId else None);
      At(Clear(s'.(slotId := None, ch := s.ch.(slot := None))), t, Returned(call, n, report))
  }

  // waking up from the condition wait; a time-out leaves the loop at once
  function DoWake(s: State, t: nat, timedOut: bool): State
    requires t < |s.pcs| && s.pcs[t].Waiting?
  {
    var Waiting(call, n) := s.pcs[t];
    var s' := s.(commandMutex := Some(Thread(t)));
    if timedOut then At(Clear(s'), t, Returned(call, n, ReportNow(s, TimedOut, None)))
    else At(s', t, Checking(call, n))
  }

  // back in the caller of ..._nolock: the handshake tries again after an error
  function DoLeave(s: State, t: nat): State
    requires t < |s.pcs| && s.pcs[t].Returned?
  {
    var Returned(call, n, report) := s.pcs[t];
    if report.err != Ok && n + 1 < call.tries then At(s, t, Entering(call, n + 1))
    else At(s, t, Unlocking(call, report)).(commandMutex := None)
  }

  // the wrappers: a successful command that must have an intermediate line
  function DoWrap(s: State, t: nat): State
    requires t < |s.pcs| && s.pcs[t].Wrapping?
  {
    var Wrapping(call, report) := s.pcs[t];
    var r := if report.out.Some? && report.out.value in s.callers then Some(s.callers[report.out.value]) else None;
    if call.needsLine && report.err == Ok && r.Some? && r.value.success && r.value.stored == [] then
      At(s, t, Idle).(
        callers := s.callers - {report.out.value}, freed := s.freed + {report.out.value},
        done := s.done + [(call, report.(err := InvalidResponse, out := None), None)])
    else
      At(s, t, Idle).(done := s.done + [(call, report, r)])
  }

  // A response some call is still carrying back to its caller.
  predicate Carried(s: State, id: Id) {
    exists t :: 0 <= t < |s.pcs| && Carries(s.pcs[t], id)
  }

  predicate Carries(pc: Pc, id: Id) {
    match pc
    case Returned(_, _, report) => report.out == Some(id)
    case Unlocking(_, report) => report.out == Some(id)
    case Wrapping(_, report) => report.out == Some(id)
    case _ => false
  }

  predicate Enabled(s: State, step: Step) {
    match step
    case LockWrite(t, call) => t < |s.pcs| && s.pcs[t].Idle? && s.writeMutex.None? && IsInterfaceCall(call)
    case LockCommand(t) => t < |s.pcs| && s.pcs[t].HasWrite? && s.commandMutex.None?
    case Enter(t, _) => t < |s.pcs| && s.pcs[t].Entering?
    case Check(t) => t < |s.pcs| && s.pcs[t].Checking? && s.ch.slot.Some? && s.slotId.Some?
    case Wake(t, timedOut) =>
      t < |s.pcs| && s.pcs[t].Waiting? && s.commandMutex.None? && (timedOut ==> s.pcs[t].call.timed)
    case Leave(t) => t < |s.pcs| && s.pcs[t].Returned?
    case UnlockWrite(t) => t < |s.pcs| && s.pcs[t].Unlocking?
    case Wrap(t) => t < |s.pcs| && s.pcs[t].Wrapping?
    case ReaderLock(_) => s.reader.Reading? && s.commandMutex.None?
    case ReaderProcess => s.reader.Locked?
    case ReaderUnlock => s.reader.Processed?
    case ReaderSms(_) => s.reader.Reading?
    case ReaderEof(handlerSet) => s.reader.Reading? && (handlerSet && !s.readerClosed ==> s.commandMutex.None?)
    case CloseFd => true
    case CloseFlag => s.commandMutex.None?
    case ClientFree(id) => id in s.callers && !Carried(s, id)
  }

  function Apply(s: State, step: Step): State
    requires Enabled(s, step)
  {
    match step
    case LockWrite(t, call) => At(s, t, HasWrite(call)).(writeMutex := Some(t))
    case LockCommand(t) => At(s, t, Entering(s.pcs[t].call, 0)).(commandMutex := Some(Thread(t)))
    case Enter(t, writes) => DoEnter(s, t, writes)
    case Check(t) => DoCheck(s, t)
    case Wake(t, timedOut) => DoWake(s, t, timedOut)
    case Leave(t) => DoLeave(s, t)
    case UnlockWrite(t) => At(s, t, Wrapping(s.pcs[t].call, s.pcs[t].report)).(writeMutex := None)
    case Wrap(t) => DoWrap(s, t)
    case ReaderLock(line) => s.(reader := Locked(line), commandMutex := Some(Reader))
    case ReaderProcess =>
      s.(reader := Processed, ch := Process(s.ch, s.reader.line),
         lines := if s.ch.slot.Some? then s.lines + [s.reader.line] else s.lines)
    case ReaderUnlock => s.(reader := Reading, commandMutex := None)
    case ReaderSms(line1) => s.(ch := Unsolicited(s.ch, line1))
    case ReaderEof(handlerSet) => s.(reader := Gone, readerClosed := s.readerClosed || handlerSet)
    case CloseFd => s.(fdOpen := false)
    case CloseFlag => s.(readerClosed := true)
    case ClientFree(id) => s.(callers := s.callers - {id}, freed := s.freed + {id})
  }

  /** After at_open, with any number of command threads about. */
  ghost predicate Init(s: State) {
    && (forall t :: 0 <= t < |s.pcs| ==> s.pcs[t].Idle?)
    && s.reader.Reading? && s.writeMutex.None? && s.commandMutex.None?
    && s.ch.slot.None? && s.ch.prefix == "" && s.ch.pdu.None? && s.slotId.None?
    && s.fdOpen && !s.readerClosed
    && s.callers == map[] && s.freed == {} && s.next == 0 && s.done == []
    && s.pdusBefore == |s.ch.pdusWritten|
  }

  // ---------------------------------------------------------------- what every step keeps

  predicate HoldsWrite(pc: Pc) {
    !pc.Idle? && !pc.Wrapping?
  }

  predicate HoldsCommand(pc: Pc) {
    pc.Entering? || pc.Checking? || pc.Returned?
  }

  // The command whose response is in the slot.
  predicate Serving(pc: Pc) {
    pc.Checking? || pc.Waiting?
  }

  predicate Reported(pc: Pc) {
    pc.Returned? || pc.Unlocking? || pc.Wrapping?
  }

  /** The mutexes exclude, and the holder is where it should be. */
  ghost predicate Exclusive(s: State) {
    && (forall t :: 0 <= t < |s.pcs| ==> (HoldsWrite(s.pcs[t]) <==> s.writeMutex == Some(t)))
    && (forall t :: 0 <= t < |s.pcs| ==> (HoldsCommand(s.pcs[t]) <==> s.commandMutex == Some(Thread(t))))
    && (s.writeMutex.Some? ==> s.writeMutex.value < |s.pcs|)
    && (s.reader.Locked? || s.reader.Processed? <==> s.commandMutex == Some(Reader))
    && (forall t :: 0 <= t < |s.pcs| && !s.pcs[t].Idle? ==> IsInterfaceCall(s.pcs[t].call))
  }

  predicate ServedBy(s: State) {
    s.writeMutex.Some? && s.writeMutex.value < |s.pcs| && Serving(s.pcs[s.writeMutex.value])
  }

  /** The slot is occupied exactly while one command is being served, and holds
      what that command is due so far; otherwise prefix and PDU are clear too. */
  ghost predicate SlotKept(s: State) {
    && (s.ch.slot.Some? <==> ServedBy(s))
    && (s.ch.slot.Some? <==> s.slotId.Some?)
    && (s.ch.slot.None? ==> s.ch.prefix == "" && s.ch.pdu.None?)
    && (s.ch.slot.Some? ==> CurrentIs(s, s.pcs[s.writeMutex.value].call.command))
  }

  ghost predicate CurrentIs(s: State, c: Command) {
    && s.ch.slot.Some?
    && Answered(c, s.lines, s.ch.slot.value)
    && s.ch.ty == c.ty && s.ch.prefix == c.prefix
    && s.ch.pdu == (if PROMPT in s.lines then None else c.pdu)
    && |s.ch.pdusWritten| == s.pdusBefore + (if PROMPT in s.lines && c.pdu.Some? then 1 else 0)
  }

  /** Every response object allocated is in the slot, with a caller, or freed,
      and in one of these places only. */
  ghost predicate OwnedOnce(s: State) {
    forall id: Id ::
      && (id < s.next <==> s.slotId == Some(id) || id in s.callers || id in s.freed)
      && !(s.slotId == Some(id) && id in s.callers)
      && !(s.slotId == Some(id) && id in s.freed)
      && !(id in s.callers && id in s.freed)
  }

  ghost predicate GoodReport(call: Call, report: Report) {
    && report.err != CommandPending
    && (report.err == Ok ==> LastFinal(report.lines).Some? && (report.out.Some? <==> call.wantsOut))
    && (report.out.Some? ==> call.wantsOut)
    && report.pdus == (if PROMPT in report.lines && call.command.pdu.Some? then 1 else 0)
  }

  ghost predicate ReportKept(s: State, pc: Pc)
    requires Reported(pc)
  {
    && GoodReport(pc.call, pc.report)
    && pc.report.err != InvalidResponse
    && (pc.report.out.Some? ==>
          && pc.report.out.value in s.callers
          && Due(pc.call.command, pc.report.lines, s.callers[pc.report.out.value]))
  }

  /** A response on its way back belongs to this call alone. */
  ghost predicate ReportsKept(s: State) {
    && (forall t :: 0 <= t < |s.pcs| && Reported(s.pcs[t]) ==> ReportKept(s, s.pcs[t]))
    && (forall t, u, id :: 0 <= t < |s.pcs| && 0 <= u < |s.pcs| && Carries(s.pcs[t], id) && Carries(s.pcs[u], id) ==> t == u)
  }

  /** The command succeeded without the line that the call insists on, and its
      response is asked for. */
  ghost predicate LacksLine(call: Call, lines: seq<string>) {
    && call.wantsOut && call.needsLine && Expected(call.command, lines) == []
    && LastFinal(lines).Some? && IsSuccess(LastFinal(lines).value)
  }

  /** What a finished call has got. */
  ghost predicate GoodResult(call: Call, report: Report, r: Option<Response>) {
    && GoodReport(call, report.(err := if report.err == InvalidResponse then Generic else report.err))
    && (report.err == Ok && call.wantsOut ==> r.Some?)
    && (report.err == InvalidResponse ==> r.None? && LacksLine(call, report.lines))
    && (r.Some? ==> Due(call.command, report.lines, r.value))
    && (report.err == Ok && call.needsLine && r.Some? && r.value.success ==> |r.value.stored| == 1)
  }

  ghost predicate DoneKept(s: State) {
    forall i :: 0 <= i < |s.done| ==> GoodResult(s.done[i].0, s.done[i].1, s.done[i].2)
  }

  ghost predicate Inv(s: State) {
    Exclusive(s) && SlotKept(s) && OwnedOnce(s) && ReportsKept(s) && DoneKept(s)
  }

  lemma InitInv(s: State)
    requires Init(s)
    ensures Inv(s)
  {}


  // Moving one thread, and the mutexes with it, keeps exclusion.
  lemma MoveExclusive(s: State, s': State, t: nat, pc: Pc)
    requires Exclusive(s) && t < |s.pcs| && s'.pcs == s.pcs[t := pc] && s'.reader == s.reader
    requires !pc.Idle? ==> IsInterfaceCall(pc.call)
    requires if HoldsWrite(pc) then s'.writeMutex == Some(t) && s.writeMutex in {None, Some(t)}
             else s'.writeMutex == (if HoldsWrite(s.pcs[t]) then None else s.writeMutex)
    requires if HoldsCommand(pc) then s'.commandMutex == Some(Thread(t)) && s.commandMutex in {None, Some(Thread(t))}
             else s'.commandMutex == (if HoldsCommand(s.pcs[t]) then None else s.commandMutex)
    ensures Exclusive(s')
  {}

  // A response reaches its caller unchanged: moving one thread keeps the others'.
  lemma MoveReports(s: State, s': State, t: nat, pc: Pc)
    requires ReportsKept(s) && t < |s.pcs| && s'.pcs == s.pcs[t := pc]
    requires forall id :: id in s.callers && !Carries(s.pcs[t], id) ==> id in s'.callers && s'.callers[id] == s.callers[id]
    requires Reported(pc) ==> ReportKept(s', pc)
    requires forall u, id :: 0 <= u < |s.pcs| && u != t && Carries(pc, id) ==> !Carries(s.pcs[u], id)
    ensures ReportsKept(s')
  {
    forall u | 0 <= u < |s.pcs| && Reported(s'.pcs[u])
      ensures ReportKept(s', s'.pcs[u])
    {
      if u != t {
        assert ReportKept(s, s.pcs[u]);
        var out := s.pcs[u].report.out;
        if out.Some? { assert Carries(s.pcs[u], out.value); }
      }
    }
  }

  lemma CarriedAreHeld(s: State)
    requires ReportsKept(s)
    ensures forall u, id :: 0 <= u < |s.pcs| && Carries(s.pcs[u], id) ==> id in s.callers
  {
    forall u, id | 0 <= u < |s.pcs| && Carries(s.pcs[u], id) ensures id in s.callers {
      assert ReportKept(s, s.pcs[u]);
    }
  }

  lemma KeptByLockWrite(s: State, t: nat, call: Call)
    requires Inv(s) && Enabled(s, LockWrite(t, call))
    ensures Inv(Apply(s, LockWrite(t, call)))
  {
    var s' := Apply(s, LockWrite(t, call));
    MoveExclusive(s, s', t, s'.pcs[t]);
    MoveReports(s, s', t, s'.pcs[t]);
  }

  lemma KeptByLockCommand(s: State, t: nat)
    requires Inv(s) && Enabled(s, LockCommand(t))
    ensures Inv(Apply(s, LockCommand(t)))
  {
    var s' := Apply(s, LockCommand(t));
    MoveExclusive(s, s', t, s'.pcs[t]);
    MoveReports(s, s', t, s'.pcs[t]);
  }

  lemma KeptByEnter(s: State, t: nat, writes: bool)
    requires Inv(s) && Enabled(s, Enter(t, writes))
    ensures Inv(Apply(s, Enter(t, writes)))
  {
    if s.fdOpen && !s.readerClosed && writes {
      KeptByOpening(s, t);
    } else {
      KeptByRefusing(s, t, writes);
    }
  }

  // The command line could not be written: nothing was put in the slot.
  lemma KeptByRefusing(s: State, t: nat, writes: bool)
    requires Inv(s) && Enabled(s, Enter(t, writes)) && !(s.fdOpen && !s.readerClosed && writes)
    ensures Inv(DoEnter(s, t, writes))
  {
    var s' := DoEnter(s, t, writes);
    assert s.writeMutex == Some(t) && s.ch.slot.None?;
    MoveExclusive(s, s', t, s'.pcs[t]);
    MoveReports(s, s', t, s'.pcs[t]);
  }

  lemma KeptByOpening(s: State, t: nat)
    requires Inv(s) && Enabled(s, Enter(t, true)) && s.fdOpen && !s.readerClosed
    ensures Inv(DoEnter(s, t, true))
  {
    var s' := DoEnter(s, t, true);
    assert s.writeMutex == Some(t) && s.ch.slot.None?;
    MoveExclusive(s, s', t, s'.pcs[t]);
    MoveReports(s, s', t, s'.pcs[t]);
    assert CurrentIs(s', s'.pcs[t].call.command);
  }

  lemma KeptByWaiting(s: State, t: nat)
    requires Inv(s) && Enabled(s, Check(t)) && s.ch.slot.value.final.None? && !s.readerClosed
    ensures Inv(Apply(s, Check(t)))
  {
    var s' := Apply(s, Check(t));
    MoveExclusive(s, s', t, s'.pcs[t]);
    MoveReports(s, s', t, s'.pcs[t]);
  }

  // The test of the wait loop lets thread t go on.
  predicate Returns(s: State, t: nat) {
    Enabled(s, Check(t)) && !(s.ch.slot.value.final.None? && !s.readerClosed)
  }

  lemma KeptByReturning(s: State, t: nat)
    requires Inv(s) && Returns(s, t)
    ensures Inv(DoCheck(s, t))
  {
    ReturningExcludes(s, t);
    ReturningSlot(s, t);
    ReturningOwns(s, t);
    ReturningReports(s, t);
  }

  lemma ReturningExcludes(s: State, t: nat)
    requires Exclusive(s) && Returns(s, t)
    ensures Exclusive(DoCheck(s, t))
  {
    MoveExclusive(s, DoCheck(s, t), t, DoCheck(s, t).pcs[t]);
  }

  lemma ReturningSlot(s: State, t: nat)
    requires Exclusive(s) && SlotKept(s) && Returns(s, t)
    ensures SlotKept(DoCheck(s, t)) && DoneKept(DoCheck(s, t)) == DoneKept(s)
  {
    assert s.writeMutex == Some(t);
  }

  lemma ReturningOwns(s: State, t: nat)
    requires Exclusive(s) && SlotKept(s) && OwnedOnce(s) && Returns(s, t)
    ensures OwnedOnce(DoCheck(s, t))
  {
    assert s.writeMutex == Some(t);
  }

  lemma ReturningReport(s: State, t: nat)
    requires Exclusive(s) && SlotKept(s) && OwnedOnce(s) && Returns(s, t)
    ensures ReportKept(DoCheck(s, t), DoCheck(s, t).pcs[t])
  {
    assert s.writeMutex == Some(t);
  }

  lemma ReturningReports(s: State, t: nat)
    requires Inv(s) && Returns(s, t)
    ensures ReportsKept(DoCheck(s, t))
  {
    ReturningReport(s, t);
    CarriedAreHeld(s);
    MoveReports(s, DoCheck(s, t), t, DoCheck(s, t).pcs[t]);
  }

  lemma KeptByWake(s: State, t: nat, timedOut: bool)
    requires Inv(s) && Enabled(s, Wake(t, timedOut))
    ensures Inv(Apply(s, Wake(t, timedOut)))
  {
    var s' := Apply(s, Wake(t, timedOut));
    assert s.writeMutex == Some(t);
    MoveExclusive(s, s', t, s'.pcs[t]);
    MoveReports(s, s', t, s'.pcs[t]);
  }

  lemma KeptByLeave(s: State, t: nat)
    requires Inv(s) && Enabled(s, Leave(t))
    ensures Inv(DoLeave(s, t))
  {
    var s' := DoLeave(s, t);
    assert s.writeMutex == Some(t);
    LeaveReports(s, t);
    MoveSlot(s, s', t, s'.pcs[t]);
    MoveExclusive(s, s', t, s'.pcs[t]);
  }

  lemma LeaveReports(s: State, t: nat)
    requires Inv(s) && Enabled(s, Leave(t))
    ensures ReportsKept(DoLeave(s, t))
  {
    var s' := DoLeave(s, t);
    MoveReports(s, s', t, s'.pcs[t]);
  }

  lemma KeptByUnlockWrite(s: State, t: nat)
    requires Inv(s) && Enabled(s, UnlockWrite(t))
    ensures Inv(Apply(s, UnlockWrite(t)))
  {
    var s' := Apply(s, UnlockWrite(t));
    MoveExclusive(s, s', t, s'.pcs[t]);
    MoveReports(s, s', t, s'.pcs[t]);
  }

  // What the wrapper hands its caller is good whether or not it intervenes.
  lemma WrappedIsGood(s: State, t: nat)
    requires Inv(s) && Enabled(s, Wrap(t))
    ensures var d := DoWrap(s, t).done;
            |d| == |s.done| + 1 && d[..|s.done|] == s.done && GoodResult(d[|s.done|].0, d[|s.done|].1, d[|s.done|].2)
  {
    assert ReportKept(s, s.pcs[t]);
    var Wrapping(call, report) := s.pcs[t];
    WrapGood(call, report, if report.out.Some? then Some(s.callers[report.out.value]) else None);
  }

  // The two outcomes of the wrapper.
  lemma WrapGood(call: Call, report: Report, r: Option<Response>)
    requires GoodReport(call, report) && report.err != InvalidResponse && (r.Some? <==> report.out.Some?)
    requires r.Some? ==> Due(call.command, report.lines, r.value)
    requires IsInterfaceCall(call)
    ensures if call.needsLine && report.err == Ok && r.Some? && r.value.success && r.value.stored == []
            then GoodResult(call, report.(err := InvalidResponse, out := None), None)
            else GoodResult(call, report, r)
  {
    ExpectedSize(call.command, report.lines);
  }

  lemma ExpectedSize(c: Command, lines: seq<string>)
    ensures !c.ty.MultiLine? ==> |Expected(c, lines)| <= 1
  {}

  lemma KeptByWrap(s: State, t: nat)
    requires Inv(s) && Enabled(s, Wrap(t))
    ensures Inv(DoWrap(s, t))
  {
    assert ReportKept(s, s.pcs[t]);
    WrapOwns(s, t);
    WrapExcludes(s, t);
    WrapSlot(s, t);
    WrapReports(s, t);
    WrapDone(s, t);
  }

  lemma WrapExcludes(s: State, t: nat)
    requires Exclusive(s) && Enabled(s, Wrap(t))
    ensures Exclusive(DoWrap(s, t))
  {
    MoveExclusive(s, DoWrap(s, t), t, Idle);
  }

  lemma WrapSlot(s: State, t: nat)
    requires SlotKept(s) && Enabled(s, Wrap(t))
    ensures SlotKept(DoWrap(s, t))
  {
    MoveSlot(s, DoWrap(s, t), t, Idle);
  }

  lemma WrapDone(s: State, t: nat)
    requires Inv(s) && Enabled(s, Wrap(t))
    ensures DoneKept(DoWrap(s, t))
  {
    WrappedIsGood(s, t);
    DoneMore(s, DoWrap(s, t));
  }

  lemma DoneMore(s: State, s': State)
    requires DoneKept(s) && |s'.done| == |s.done| + 1 && s'.done[..|s.done|] == s.done
    requires var d := s'.done[|s.done|]; GoodResult(d.0, d.1, d.2)
    ensures DoneKept(s')
  {
    forall i | 0 <= i < |s'.done| ensures GoodResult(s'.done[i].0, s'.done[i].1, s'.done[i].2) {
      if i < |s.done| { assert s'.done[i] == s.done[i]; }
    }
  }

  lemma WrapReports(s: State, t: nat)
    requires Inv(s) && Enabled(s, Wrap(t))
    ensures ReportsKept(DoWrap(s, t))
  {
    MoveReports(s, DoWrap(s, t), t, Idle);
  }

  lemma WrapOwns(s: State, t: nat)
    requires OwnedOnce(s) && Enabled(s, Wrap(t)) && ReportKept(s, s.pcs[t])
    ensures OwnedOnce(DoWrap(s, t))
  {}

  // Moving a thread that is not being served leaves the slot alone.
  lemma MoveSlot(s: State, s': State, t: nat, pc: Pc)
    requires SlotKept(s) && t < |s.pcs| && s'.pcs == s.pcs[t := pc] && !Serving(s.pcs[t]) && !Serving(pc)
    requires s'.ch == s.ch && s'.slotId == s.slotId && s'.lines == s.lines
    requires s'.pdusBefore == s.pdusBefore && s'.writeMutex == s.writeMutex
    ensures SlotKept(s')
  {}

  lemma KeptByReader(s: State, step: Step)
    requires Inv(s) && Enabled(s, step)
    requires step.ReaderLock? || step.ReaderUnlock? || step.ReaderSms?
    ensures Inv(Apply(s, step))
  {}

  lemma KeptByClosing(s: State, step: Step)
    requires Inv(s) && Enabled(s, step)
    requires step.ReaderEof? || step.CloseFd? || step.CloseFlag?
    ensures Inv(Apply(s, step))
  {}

  lemma KeptByProcess(s: State)
    requires Inv(s) && Enabled(s, ReaderProcess)
    ensures Inv(Apply(s, ReaderProcess))
  {
    if s.ch.slot.Some? {
      StepAnswers(s.pcs[s.writeMutex.value].call.command, s.lines, s.reader.line, s.ch);
    }
  }

  lemma KeptByFree(s: State, id: Id)
    requires Inv(s) && Enabled(s, ClientFree(id))
    ensures Inv(Apply(s, ClientFree(id)))
  {
    var s' := Apply(s, ClientFree(id));
    forall t | 0 <= t < |s.pcs| && Reported(s.pcs[t]) ensures ReportKept(s', s.pcs[t]) {
      assert !Carries(s.pcs[t], id);
    }
  }

  lemma StepKeepsInv(s: State, step: Step)
    requires Inv(s) && Enabled(s, step)
    ensures Inv(Apply(s, step))
  {
    match step {
      case LockWrite(t, call) => KeptByLockWrite(s, t, call);
      case LockCommand(t) => KeptByLockCommand(s, t);
      case Enter(t, writes) => KeptByEnter(s, t, writes);
      case Check(t) =>
        if s.ch.slot.value.final.None? && !s.readerClosed { KeptByWaiting(s, t); } else { KeptByReturning(s, t); }
      case Wake(t, timedOut) => KeptByWake(s, t, timedOut);
      case Leave(t) => KeptByLeave(s, t);
      case UnlockWrite(t) => KeptByUnlockWrite(s, t);
      case Wrap(t) => KeptByWrap(s, t);
      case ReaderProcess => KeptByProcess(s);
      case ReaderLock(_) => KeptByReader(s, step);
      case ReaderUnlock => KeptByReader(s, step);
      case ReaderSms(_) => KeptByReader(s, step);
      case ReaderEof(_) => KeptByClosing(s, step);
      case CloseFd => KeptByClosing(s, step);
      case CloseFlag => KeptByClosing(s, step);
      case ClientFree(id) => KeptByFree(s, id);
    }
  }

  // ---------------------------------------------------------------- runs

  /** Some sequence of enabled steps leads from the start to s. */
  ghost predicate Reaches(start: State, steps: seq<Step>, s: State)
    decreases |steps|
  {
    if steps == [] then s == start
    else Enabled(start, steps[0]) && Reaches(Apply(start, steps[0]), steps[1..], s)
  }

  lemma {:induction false} RunKeepsInv(start: State, steps: seq<Step>, s: State)
    requires Inv(start) && Reaches(start, steps, s)
    ensures Inv(s)
    decreases |steps|
  {
    if steps != [] {
      StepKeepsInv(start, steps[0]);
      RunKeepsInv(Apply(start, steps[0]), steps[1..], s);
    }
  }

  /** Safety of every interleaving: a command about to start finds the slot
      empty, with prefix and PDU clear whenever no command is being served;
      each response object has one place; and every finished call has what
      GoodResult says: never "command pending", and with "ok" a final result
      that agrees with `success`, the due lines in order, the PDU written once
      if the prompt came and not otherwise. */
  lemma EveryRunIsSafe(start: State, steps: seq<Step>, s: State)
    requires Init(start) && Reaches(start, steps, s)
    ensures forall t :: 0 <= t < |s.pcs| && s.pcs[t].Entering? ==> s.ch.slot.None?
    ensures (forall t :: 0 <= t < |s.pcs| ==> !Serving(s.pcs[t])) ==> s.ch.slot.None? && s.ch.prefix == "" && s.ch.pdu.None?
    ensures forall t :: 0 <= t < |s.pcs| && s.pcs[t].Returned? ==> s.ch.slot.None? && s.ch.prefix == "" && s.ch.pdu.None?
    ensures OwnedOnce(s)
    ensures forall i :: 0 <= i < |s.done| ==> GoodResult(s.done[i].0, s.done[i].1, s.done[i].2)
  {
    InitInv(start);
    RunKeepsInv(start, steps, s);
  }

  /** In particular, what "ok" means to the caller of a one-line command that
      asked for its response. */
  lemma OkMeansOneLine(call: Call, report: Report, r: Option<Response>)
    requires GoodResult(call, report, r) && report.err == Ok && call.wantsOut && call.needsLine
    ensures r.Some? && r.value.final.Some? && IsFinal(r.value.final.value)
    ensures r.value.success <==> IsSuccess(r.value.final.value)
    ensures r.value.success ==> |r.value.stored| == 1 && r.value.stored[0] in report.lines
  {
    LastFinalIsFinal(report.lines);
    if r.value.success {
      var c := call.command;
      CandidatesArrived(c, report.lines);
      assert r.value.stored[0] in Candidates(c, report.lines);
    }
  }

  lemma {:induction false} LastFinalIsFinal(lines: seq<string>)
    ensures LastFinal(lines).Some? ==> IsFinal(LastFinal(lines).value) && LastFinal(lines).value in lines
  {
    if lines != [] { LastFinalIsFinal(lines[..|lines| - 1]); }
  }

  lemma {:induction false} CandidatesArrived(c: Command, lines: seq<string>)
    ensures forall l :: l in Candidates(c, lines) ==> l in lines && Matches(c, l) && !IsFinal(l)
  {
    if lines != [] { CandidatesArrived(c, lines[..|lines| - 1]); }
  }

  // A thread at the test of its loop always has a response to test.
  lemma CheckIsEnabled(s: State, t: nat)
    requires Inv(s) && t < |s.pcs| && s.pcs[t].Checking?
    ensures Enabled(s, Check(t))
  {}
}
