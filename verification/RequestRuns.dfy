/** Every run of accepting, completing and disconnecting (libril/ril.cpp), with
    completions from any thread. */
module RequestRuns {
  import opened Basics
  import Requests

  // A request still on the list.
  datatype Entry = Entry(id: nat, cancelled: bool)

  // A response sent whole, and the connection it went out on.
  datatype Answer = Answer(id: nat, conn: nat)

  /** No client; a client; or the descriptor closed, the requests not yet marked
      as cancelled. */
  datatype Phase = Listening | Connected | Closing

  datatype State = State(
    phase: Phase,
    conn: nat,               // connections accepted so far
    pending: seq<Entry>,     // s_pendingRequests
    accepted: seq<nat>,      // for every request so far, its connection
    completed: set<nat>,
    sent: seq<Answer>)

  datatype Step =
    | Connect                              // listenCallback
    | Accept                               // processCommandBuffer
    | Complete(id: nat, goesOut: bool)     // RIL_onRequestComplete, on any token
    | Close                                // processCommandsCallback closes the socket
    | CancelAll                            // onCommandsSocketClosed

  predicate Init(s: State) {
    s == State(Listening, 0, [], [], {}, [])
  }

  predicate Enabled(s: State, step: Step) {
    match step
    case Connect => s.phase.Listening?
    case Accept => s.phase.Connected?
    case Complete(_, _) => true
    case Close => s.phase.Connected?
    case CancelAll => s.phase.Closing?
  }

  function Find(pending: seq<Entry>, id: nat): Option<Entry> {
    if pending == [] then None
    else if pending[0].id == id then Some(pending[0])
    else Find(pending[1..], id)
  }

  function Without(pending: seq<Entry>, id: nat): seq<Entry> {
    if pending == [] then []
    else if pending[0].id == id then pending[1..]
    else [pending[0]] + Without(pending[1..], id)
  }

  function Cancelled(pending: seq<Entry>): (r: seq<Entry>)
    ensures |r| == |pending|
    ensures forall i :: 0 <= i < |r| ==> r[i] == Entry(pending[i].id, true)
  {
    seq(|pending|, i requires 0 <= i < |pending| => Entry(pending[i].id, true))
  }

  function Apply(s: State, step: Step): State
    requires Enabled(s, step)
  {
    match step
    case Connect => s.(phase := Connected, conn := s.conn + 1)
    case Accept => s.(pending := [Entry(|s.accepted|, false)] + s.pending, accepted := s.accepted + [s.conn])
    case Complete(id, goesOut) =>
      var e := Find(s.pending, id);
      if e.None? then s
      else s.(
        pending := Without(s.pending, id), completed := s.completed + {id},
        sent := if !e.value.cancelled && s.phase.Connected? && goesOut then s.sent + [Answer(id, s.conn)] else s.sent)
    case Close => s.(phase := Closing)
    case CancelAll => s.(phase := Listening, pending := Cancelled(s.pending))
  }

  // ---------------------------------------------------------------- what every step keeps

  predicate Listed(pending: seq<Entry>, id: nat) {
    Find(pending, id).Some?
  }

  // Newest first.
  ghost predicate Descending(pending: seq<Entry>) {
    forall i, j :: 0 <= i < j < |pending| ==> pending[i].id > pending[j].id
  }

  /** The list is what was accepted and not completed. */
  ghost predicate Exact(s: State) {
    && Descending(s.pending)
    && (forall id :: id in s.completed ==> id < |s.accepted|)
    && forall id: nat :: Listed(s.pending, id) <==> id < |s.accepted| && id !in s.completed
  }

  // What may still be answered belongs to the connection there is.
  ghost predicate Current(s: State) {
    forall i :: 0 <= i < |s.pending| && !s.pending[i].cancelled ==>
      && s.pending[i].id < |s.accepted| && s.accepted[s.pending[i].id] == s.conn && !s.phase.Listening?
  }

  ghost predicate AnswerGood(s: State, a: Answer) {
    a.id < |s.accepted| && a.id in s.completed && a.conn == s.accepted[a.id]
  }

  ghost predicate Answered(s: State) {
    && (forall k :: 0 <= k < |s.sent| ==> AnswerGood(s, s.sent[k]))
    && (forall j, k :: 0 <= j < k < |s.sent| ==> s.sent[j].id != s.sent[k].id)
  }

  ghost predicate Inv(s: State) {
    Exact(s) && Current(s) && Answered(s)
  }

  lemma {:induction false} FindMeans(pending: seq<Entry>, id: nat)
    requires Descending(pending)
    ensures Listed(pending, id) <==> exists i :: 0 <= i < |pending| && pending[i].id == id
    ensures Listed(pending, id) ==> Find(pending, id).value in pending && Find(pending, id).value.id == id
  {
    if pending != [] {
      FindMeans(pending[1..], id);
      if pending[0].id != id && Listed(pending[1..], id) {
        var i :| 0 <= i < |pending[1..]| && pending[1..][i].id == id;
        assert pending[i + 1].id == id;
      }
      if i :| 0 < i < |pending| && pending[i].id == id {
        assert pending[1..][i - 1].id == id;
      }
    }
  }

  lemma {:induction false} WithoutKeeps(pending: seq<Entry>, id: nat, other: nat)
    requires Descending(pending)
    ensures Listed(Without(pending, id), other) <==> Listed(pending, other) && other != id
    ensures forall e :: e in Without(pending, id) ==> e in pending
  {
    if pending != [] {
      if pending[0].id == id {
        FindMeans(pending[1..], id);
      } else {
        WithoutKeeps(pending[1..], id, other);
        assert Without(pending, id)[1..] == Without(pending[1..], id);
      }
    }
  }

  lemma {:induction false} WithoutDescends(pending: seq<Entry>, id: nat)
    requires Descending(pending)
    ensures Descending(Without(pending, id))
  {
    if pending != [] && pending[0].id != id {
      WithoutDescends(pending[1..], id);
      var w := Without(pending[1..], id);
      forall j | 0 <= j < |w| ensures pending[0].id > w[j].id {
        WithoutKeeps(pending[1..], id, w[j].id);
        assert w[j] in pending[1..];
      }
    }
  }

  lemma {:induction false} CancelledFind(pending: seq<Entry>, id: nat)
    ensures Listed(Cancelled(pending), id) <==> Listed(pending, id)
  {
    if pending != [] {
      assert Cancelled(pending)[1..] == Cancelled(pending[1..]);
      CancelledFind(pending[1..], id);
    }
  }

  lemma AcceptKeeps(s: State)
    requires Inv(s) && Enabled(s, Accept)
    ensures Inv(Apply(s, Accept))
  {
    var s' := Apply(s, Accept);
    var n := |s.accepted|;
    assert s'.pending[1..] == s.pending;
    forall i | 0 <= i < |s.pending| ensures s.pending[i].id < n {
      FindMeans(s.pending, s.pending[i].id);
    }
    forall id: nat ensures Listed(s'.pending, id) <==> id == n || Listed(s.pending, id) {}
    NewAnswers(s, s');
  }

  lemma NewAnswers(s: State, s': State)
    requires Answered(s) && s'.sent == s.sent && s.accepted <= s'.accepted && s.completed <= s'.completed
    ensures Answered(s')
  {
    forall k | 0 <= k < |s'.sent| ensures AnswerGood(s', s'.sent[k]) {
      assert AnswerGood(s, s.sent[k]);
    }
  }

  lemma CompleteKeeps(s: State, id: nat, goesOut: bool)
    requires Inv(s)
    ensures Inv(Apply(s, Complete(id, goesOut)))
  {
    var e := Find(s.pending, id);
    if e.Some? {
      var s' := Apply(s, Complete(id, goesOut));
      WithoutDescends(s.pending, id);
      forall other: nat ensures Listed(s'.pending, other) <==> other < |s'.accepted| && other !in s'.completed {
        WithoutKeeps(s.pending, id, other);
      }
      forall i | 0 <= i < |s'.pending| ensures s'.pending[i] in s.pending {
        WithoutKeeps(s.pending, id, 0);
        assert s'.pending[i] in s'.pending;
      }
      FindMeans(s.pending, id);
      assert id !in s.completed;
      forall k | 0 <= k < |s.sent| ensures AnswerGood(s', s.sent[k]) && s.sent[k].id != id {
        assert AnswerGood(s, s.sent[k]);
      }
    }
  }

  lemma CancelKeeps(s: State)
    requires Inv(s) && Enabled(s, CancelAll)
    ensures Inv(Apply(s, CancelAll))
  {
    var s' := Apply(s, CancelAll);
    forall id: nat ensures Listed(s'.pending, id) <==> Listed(s.pending, id) {
      CancelledFind(s.pending, id);
    }
    NewAnswers(s, s');
  }

  lemma StepKeepsInv(s: State, step: Step)
    requires Inv(s) && Enabled(s, step)
    ensures Inv(Apply(s, step))
  {
    match step {
      case Accept => AcceptKeeps(s);
      case Complete(id, goesOut) => CompleteKeeps(s, id, goesOut);
      case CancelAll => CancelKeeps(s);
      case _ => NewAnswers(s, Apply(s, step));
    }
  }

  // ---------------------------------------------------------------- runs

  ghost predicate Reaches(start: State, steps: seq<Step>, s: State)
    decreases |steps|
  {
    if steps == [] then s == start
    else Enabled(start, steps[0]) && Reaches(Apply(start, steps[0]), steps[1..], s)
  }

  lemma {:induction false} RunKeepsInv(start: State, steps: seq<Step>, s: State)
    requires Inv(start) && Reaches(start, steps, s)
    ensures Inv(s)
    decreases |steps|
  {
    if steps != [] {
      StepKeepsInv(start, steps[0]);
      RunKeepsInv(Apply(start, steps[0]), steps[1..], s);
    }
  }

  /** Over every run: a request is answered at most once, only after it was
      completed, and only on the connection that it came in on; and the pending
      list is always what was accepted less what was completed. */
  lemma Lifecycle(start: State, steps: seq<Step>, s: State)
    requires Init(start) && Reaches(start, steps, s)
    ensures forall j, k :: 0 <= j < k < |s.sent| ==> s.sent[j].id != s.sent[k].id
    ensures forall k :: 0 <= k < |s.sent| ==> AnswerGood(s, s.sent[k])
    ensures Descending(s.pending)
    ensures forall id: nat :: Listed(s.pending, id) <==> id < |s.accepted| && id !in s.completed
  {
    RunKeepsInv(start, steps, s);
  }

  // ---------------------------------------------------------------- the fate of one request

  /** What the steps alone tell of a request: not there yet; answerable; deprived
      of its client; completed without an answer; answered. */
  datatype Fate = Unborn | Open | Doomed | Silent | Told

  // n requests have come in before the step.
  function Next(fate: Fate, step: Step, id: nat, n: nat): Fate {
    match step
    case Accept => if n == id then Open else fate
    case Complete(other, goesOut) =>
      if other != id then fate
      else if fate.Open? then (if goesOut then Told else Silent)
      else if fate.Doomed? then Silent
      else fate
    case Close => if fate.Open? then Doomed else fate
    case _ => fate
  }

  function FateAfter(fate: Fate, steps: seq<Step>, id: nat, n: nat): Fate
    decreases |steps|
  {
    if steps == [] then fate
    else FateAfter(Next(fate, steps[0], id, n), steps[1..], id, if steps[0].Accept? then n + 1 else n)
  }

  ghost predicate IsSent(s: State, id: nat) {
    exists k :: 0 <= k < |s.sent| && s.sent[k].id == id
  }

  /** The state has the request as its fate says. */
  ghost predicate Met(s: State, id: nat, fate: Fate) {
    && (fate.Unborn? <==> id >= |s.accepted|)
    && (fate.Open? || fate.Doomed? <==> Listed(s.pending, id))
    && (fate.Told? <==> IsSent(s, id))
    && (fate.Open? || fate.Doomed? ==> (fate.Open? <==> s.phase.Connected? && !Find(s.pending, id).value.cancelled))
  }

  lemma CancelledAll(pending: seq<Entry>, id: nat)
    requires Descending(pending) && Listed(pending, id)
    ensures Listed(Cancelled(pending), id) && Find(Cancelled(pending), id).value.cancelled
  {
    CancelledFind(pending, id);
    FindMeans(Cancelled(pending), id);
  }

  lemma {:induction false} WithoutFinds(pending: seq<Entry>, id: nat, other: nat)
    requires id != other
    ensures Find(Without(pending, id), other) == Find(pending, other)
  {
    if pending != [] && pending[0].id != id {
      WithoutFinds(pending[1..], id, other);
      assert Without(pending, id)[1..] == Without(pending[1..], id);
    }
  }

  // What else is sent is not this request's.
  lemma SentStays(s: State, s': State, id: nat)
    requires s.sent <= s'.sent && forall k :: |s.sent| <= k < |s'.sent| ==> s'.sent[k].id != id
    ensures IsSent(s', id) <==> IsSent(s, id)
  {
    if IsSent(s, id) {
      var k :| 0 <= k < |s.sent| && s.sent[k].id == id;
      assert s'.sent[k].id == id;
    }
  }

  lemma CompleteMet(s: State, id: nat, fate: Fate, other: nat, goesOut: bool)
    requires Inv(s) && Met(s, id, fate)
    ensures Met(Apply(s, Complete(other, goesOut)), id, Next(fate, Complete(other, goesOut), id, |s.accepted|))
  {
    var s' := Apply(s, Complete(other, goesOut));
    if other != id {
      WithoutFinds(s.pending, other, id);
      FindMeans(s.pending, other);
      SentStays(s, s', id);
    } else if Listed(s.pending, id) {
      WithoutKeeps(s.pending, id, id);
      if fate.Open? && goesOut {
        assert s'.sent[|s.sent|].id == id;
      } else {
        SentStays(s, s', id);
      }
    }
  }

  lemma AcceptMet(s: State, id: nat, fate: Fate)
    requires Inv(s) && s.phase.Connected? && Met(s, id, fate)
    ensures Met(Apply(s, Accept), id, Next(fate, Accept, id, |s.accepted|))
  {
    var s' := Apply(s, Accept);
    assert s'.pending[1..] == s.pending;
    SentStays(s, s', id);
  }

  lemma StepMet(s: State, id: nat, fate: Fate, step: Step)
    requires Inv(s) && Enabled(s, step) && Met(s, id, fate)
    ensures Met(Apply(s, step), id, Next(fate, step, id, |s.accepted|))
  {
    match step {
      case Accept => AcceptMet(s, id, fate);
      case Complete(other, goesOut) => CompleteMet(s, id, fate, other, goesOut);
      case CancelAll =>
        SentStays(s, Apply(s, step), id);
        CancelledFind(s.pending, id);
        if Listed(s.pending, id) { CancelledAll(s.pending, id); }
      case _ =>
        SentStays(s, Apply(s, step), id);
        if s.phase.Listening? && Listed(s.pending, id) { FindMeans(s.pending, id); }
    }
  }

  lemma {:induction false} RunMet(s: State, steps: seq<Step>, end: State, id: nat, fate: Fate)
    requires Inv(s) && Met(s, id, fate) && Reaches(s, steps, end)
    ensures Met(end, id, FateAfter(fate, steps, id, |s.accepted|))
    decreases |steps|
  {
    if steps != [] {
      StepMet(s, id, fate, steps[0]);
      StepKeepsInv(s, steps[0]);
      RunMet(Apply(s, steps[0]), steps[1..], end, id, Next(fate, steps[0], id, |s.accepted|));
    }
  }

  // The connection of each request that comes in.
  function Arrivals(steps: seq<Step>, conn: nat): seq<nat>
    decreases |steps|
  {
    if steps == [] then []
    else if steps[0].Connect? then Arrivals(steps[1..], conn + 1)
    else if steps[0].Accept? then [conn] + Arrivals(steps[1..], conn)
    else Arrivals(steps[1..], conn)
  }

  lemma {:induction false} RunArrives(s: State, steps: seq<Step>, end: State)
    requires Reaches(s, steps, end)
    ensures end.accepted == s.accepted + Arrivals(steps, s.conn)
    decreases |steps|
  {
    if steps == [] {
      assert s.accepted + [] == s.accepted;
    } else {
      RunArrives(Apply(s, steps[0]), steps[1..], end);
      if steps[0].Accept? { Associate(s.accepted, [s.conn], Arrivals(steps[1..], s.conn)); }
    }
  }

  /** Over every run, each request is answered exactly when its own steps say so:
      it came in, and its first completion went out before the connection that it
      came in on was closed; that is the connection it is answered on. */
  lemma AnsweredExactly(start: State, steps: seq<Step>, s: State, id: nat)
    requires Init(start) && Reaches(start, steps, s)
    ensures IsSent(s, id) <==> FateAfter(Unborn, steps, id, 0).Told?
    ensures Listed(s.pending, id) <==> FateAfter(Unborn, steps, id, 0) in {Open, Doomed}
    ensures s.accepted == Arrivals(steps, 0)
    ensures forall k :: 0 <= k < |s.sent| ==> s.sent[k].id < |s.accepted| && s.sent[k].conn == s.accepted[s.sent[k].id]
  {
    RunMet(start, steps, s, id, Unborn);
    RunArrives(start, steps, s);
    RunKeepsInv(start, steps, s);
    forall k | 0 <= k < |s.sent| ensures s.sent[k].id < |s.accepted| && s.sent[k].conn == s.accepted[s.sent[k].id] {
      assert AnswerGood(s, s.sent[k]);
    }
  }

  /** What was pending when its client went is never answered. */
  lemma {:induction false} NeverOnALaterConnection(s: State, steps: seq<Step>, end: State, id: nat)
    requires Inv(s) && s.phase.Closing? && Listed(s.pending, id)
    requires Reaches(Apply(s, CancelAll), steps, end)
    ensures forall k :: 0 <= k < |end.sent| ==> end.sent[k].id != id
  {
    var s' := Apply(s, CancelAll);
    StepKeepsInv(s, CancelAll);
    CancelledFind(s.pending, id);
    FindMeans(s'.pending, id);
    StaysUnanswered(s', steps, end, id);
  }

  // Cancelled, or completed without an answer.
  ghost predicate Dead(s: State, id: nat) {
    && id < |s.accepted|
    && (forall k :: 0 <= k < |s.sent| ==> s.sent[k].id != id)
    && (forall i :: 0 <= i < |s.pending| && s.pending[i].id == id ==> s.pending[i].cancelled)
  }

  lemma DeadStaysDead(s: State, step: Step, id: nat)
    requires Inv(s) && Enabled(s, step) && Dead(s, id)
    ensures Dead(Apply(s, step), id)
  {
    var s' := Apply(s, step);
    if step.Complete? && Listed(s.pending, step.id) {
      FindMeans(s.pending, step.id);
      forall i | 0 <= i < |s'.pending| ensures s'.pending[i] in s.pending {
        WithoutKeeps(s.pending, step.id, id);
        assert s'.pending[i] in s'.pending;
      }
    } else if step.Accept? {
      assert s'.pending[1..] == s.pending;
    }
  }

  lemma {:induction false} StaysUnanswered(s: State, steps: seq<Step>, end: State, id: nat)
    requires Inv(s) && Dead(s, id) && Reaches(s, steps, end)
    ensures Dead(end, id)
    decreases |steps|
  {
    if steps != [] {
      DeadStaysDead(s, steps[0], id);
      StepKeepsInv(s, steps[0]);
      StaysUnanswered(Apply(s, steps[0]), steps[1..], end, id);
    }
  }

  // The run has no completion of this request.
  ghost predicate NeverCompletes(steps: seq<Step>, id: nat) {
    forall i :: 0 <= i < |steps| ==> !(steps[i].Complete? && steps[i].id == id)
  }

  lemma StaysListed(s: State, step: Step, id: nat)
    requires Inv(s) && Enabled(s, step) && Listed(s.pending, id) && !(step.Complete? && step.id == id)
    ensures Listed(Apply(s, step).pending, id)
  {
    match step {
      case Complete(other, _) => WithoutKeeps(s.pending, other, id);
      case CancelAll => CancelledFind(s.pending, id);
      case _ =>
    }
  }

  /** A request that nothing completes, like one whose parcel its dispatch
      function cannot read, stays on the list and is never answered. */
  lemma {:induction false} NeverCompletedNeverAnswered(s: State, steps: seq<Step>, end: State, id: nat)
    requires Inv(s) && Listed(s.pending, id) && Reaches(s, steps, end) && NeverCompletes(steps, id)
    ensures Listed(end.pending, id)
    ensures forall k :: 0 <= k < |end.sent| ==> end.sent[k].id != id
    decreases |steps|
  {
    if steps == [] {
      forall k | 0 <= k < |end.sent| ensures end.sent[k].id != id { assert AnswerGood(end, end.sent[k]); }
    } else {
      StaysListed(s, steps[0], id);
      StepKeepsInv(s, steps[0]);
      forall i | 0 <= i < |steps[1..]| ensures !(steps[1..][i].Complete? && steps[1..][i].id == id) {
        assert steps[1..][i] == steps[i + 1];
      }
      NeverCompletedNeverAnswered(Apply(s, steps[0]), steps[1..], end, id);
    }
  }

  /** A handler may complete a request twice: the second time does nothing. */
  lemma CompletedTwice(s: State, id: nat, first: bool, second: bool)
    requires Inv(s)
    ensures var s' := Apply(s, Complete(id, first)); Apply(s', Complete(id, second)) == s'
  {
    var s' := Apply(s, Complete(id, first));
    CompleteKeeps(s, id, first);
    assert !Listed(s'.pending, id);
  }

  /** A pending request of the present client is answered by its completion. */
  lemma CompletionAnswers(s: State, id: nat)
    requires Inv(s) && s.phase.Connected? && Listed(s.pending, id) && !Find(s.pending, id).value.cancelled
    ensures var s' := Apply(s, Complete(id, true)); s'.sent == s.sent + [Answer(id, s.accepted[id])]
  {
    FindMeans(s.pending, id);
  }

  /** A request that comes in and is completed while its client is there is
      listed, answered once on its connection, and off the list again. */
  lemma RequestIsAnswered(s: State)
    requires Inv(s) && s.phase.Connected?
    ensures var id, s' := |s.accepted|, Apply(s, Accept);
            && Listed(s'.pending, id) && !Find(s'.pending, id).value.cancelled
            && var end := Apply(s', Complete(id, true));
               end.sent == s.sent + [Answer(id, s.conn)] && end.pending == s.pending && id in end.completed
  {
    AcceptKeeps(s);
    CompletionAnswers(Apply(s, Accept), |s.accepted|);
    assert Apply(s, Accept).pending[1..] == s.pending;
  }

  // ---------------------------------------------------------------- the list in memory

  function Ids(nodes: seq<Requests.RequestInfo>, ids: map<Requests.RequestInfo, nat>): (r: seq<nat>)
    requires forall n :: n in nodes ==> n in ids
    ensures |r| == |nodes| && forall i :: 0 <= i < |r| ==> r[i] == ids[nodes[i]]
  {
    seq(|nodes|, i requires 0 <= i < |nodes| => ids[nodes[i]])
  }

  function EntryIds(pending: seq<Entry>): (r: seq<nat>)
    ensures |r| == |pending| && forall i :: 0 <= i < |r| ==> r[i] == pending[i].id
  {
    seq(|pending|, i requires 0 <= i < |pending| => pending[i].id)
  }

  /** Taking a request off the list in memory is taking its identity off this
      one. */
  lemma {:induction false} WithoutIsWithout(nodes: seq<Requests.RequestInfo>, ids: map<Requests.RequestInfo, nat>,
                                           r: Requests.RequestInfo, pending: seq<Entry>)
    requires r in ids && forall n :: n in nodes ==> n in ids
    requires forall n :: n in nodes && ids[n] == ids[r] ==> n == r
    requires EntryIds(pending) == Ids(nodes, ids)
    ensures forall n :: n in Requests.Without(nodes, r) ==> n in ids
    ensures EntryIds(Without(pending, ids[r])) == Ids(Requests.Without(nodes, r), ids)
  {
    if nodes != [] {
      assert EntryIds(pending)[0] == Ids(nodes, ids)[0];
      assert EntryIds(pending)[1..] == EntryIds(pending[1..]) && Ids(nodes, ids)[1..] == Ids(nodes[1..], ids);
      if nodes[0] != r {
        WithoutIsWithout(nodes[1..], ids, r, pending[1..]);
      }
    }
  }
}
