/** Runs of the event loop and of the threads that add timers
    (libril/ril_event.cpp, with the wakeup pipe of libril/ril.cpp). */
module EventRuns {
  import opened Basics
  import opened Timers

  datatype Timer = Timer(id: nat, deadline: int)

  // What calcNextTimeout makes select wait for.
  datatype Wake = Forever | Poll | Until(time: int)

  /** One turn of ril_event_loop; `drain` says that select reported the wakeup
      pipe readable, and that its callback is still to come. */
  datatype LoopPc = Top | Selecting(wake: Wake) | Expiring(drain: bool) | Collecting(drain: bool) | Firing(drain: bool)

  datatype State = State(
    clock: int,
    pc: LoopPc,
    timers: seq<Timer>,    // timer_list
    pending: seq<Timer>,   // the timers of pending_list
    fired: seq<Timer>,     // those whose callback has been called
    added: seq<Timer>,     // every timer ever added
    writers: set<nat>,     // timers whose adder has yet to write the pipe
    pipe: nat)             // bytes in the wakeup pipe

  datatype Step =
    | Tick(micros: nat)
    | Insert(delay: nat)        // another thread: ril_timer_add
    | WritePipe(id: nat)        // that thread: triggerEvLoop
    | Calc
    | SelectInterrupted
    | SelectReturns
    | Expire
    | Collect
    | Fire
    | CallbackInsert(delay: nat) // the loop's thread: no write
    | Drain
    | Again

  function DeadlinesOf(ts: seq<Timer>): (ds: seq<int>)
    ensures |ds| == |ts|
    ensures forall i :: 0 <= i < |ts| ==> ds[i] == ts[i].deadline
  {
    seq(|ts|, i requires 0 <= i < |ts| => ts[i].deadline)
  }

  // The walk of ril_timer_add: before the first timer not earlier.
  function Enlist(ts: seq<Timer>, t: Timer): seq<Timer> {
    if ts != [] && ts[0].deadline < t.deadline then [ts[0]] + Enlist(ts[1..], t) else [t] + ts
  }

  // ril_timer_add of a fresh event
  function Add(s: State, delay: nat): State {
    var t := Timer(|s.added|, s.clock + delay);
    s.(timers := Enlist(s.timers, t), added := s.added + [t])
  }

  function NextWake(s: State): Wake {
    if s.timers == [] then Forever
    else if s.clock < s.timers[0].deadline then Until(s.timers[0].deadline)
    else Poll
  }

  predicate Enabled(s: State, step: Step) {
    match step
    case Tick(_) => true
    case Insert(_) => true
    case WritePipe(id) => id in s.writers
    case Calc => s.pc.Top?
    case SelectInterrupted => s.pc.Selecting?
    case SelectReturns => s.pc.Selecting?
    case Expire => s.pc.Expiring?
    case Collect => s.pc.Collecting?
    case Fire => s.pc.Firing? && s.pending != []
    case CallbackInsert(_) => s.pc.Firing?
    case Drain => s.pc.Firing? && s.pc.drain && s.pending == []
    case Again => s.pc.Firing? && !s.pc.drain && s.pending == []
  }

  function Apply(s: State, step: Step): State
    requires Enabled(s, step)
  {
    match step
    case Tick(micros) => s.(clock := s.clock + micros)
    case Insert(delay) => Add(s, delay).(writers := s.writers + {|s.added|})
    case WritePipe(id) => s.(writers := s.writers - {id}, pipe := s.pipe + 1)
    case Calc => s.(pc := Selecting(NextWake(s)))
    case SelectInterrupted => s.(pc := Top)
    case SelectReturns => s.(pc := Expiring(s.pipe > 0))
    case Expire =>
      var k := Earlier(DeadlinesOf(s.timers), s.clock);
      s.(pc := Collecting(s.pc.drain), timers := s.timers[k..], pending := s.pending + s.timers[..k])
    case Collect => s.(pc := Firing(s.pc.drain))
    case Fire => s.(pending := s.pending[1..], fired := s.fired + [s.pending[0]])
    case CallbackInsert(delay) => Add(s, delay)
    case Drain => s.(pc := Firing(false), pipe := 0)
    case Again => s.(pc := Top)
  }

  /** After start-up, before any timer was added. */
  predicate Init(s: State) {
    && s.pc.Top? && s.timers == [] && s.pending == [] && s.fired == [] && s.added == []
    && s.writers == {} && s.pipe == 0
  }

  // ---------------------------------------------------------------- what every step keeps

  ghost predicate InOrder(ts: seq<Timer>) {
    Sorted(DeadlinesOf(ts))
  }

  ghost predicate AllBefore(ts: seq<Timer>, bound: int) {
    forall i :: 0 <= i < |ts| ==> ts[i].deadline < bound
  }

  ghost predicate AllFrom(ts: seq<Timer>, bound: int) {
    forall i :: 0 <= i < |ts| ==> ts[i].deadline >= bound
  }

  /** The deadlines before some time in the past have left the list, in order;
      the others are still on it. */
  ghost predicate OrderKept(s: State) {
    exists pass :: OrderBy(s, pass)
  }

  ghost predicate OrderBy(s: State, pass: int) {
    && pass <= s.clock
    && InOrder(s.timers) && InOrder(s.fired + s.pending)
    && AllFrom(s.timers, pass)
    && AllBefore(s.fired + s.pending, pass)
    && (!(s.pc.Collecting? || s.pc.Firing?) ==> s.pending == [])
  }

  /** No timer is lost or doubled. */
  ghost predicate Conserved(s: State) {
    && (forall i :: 0 <= i < |s.added| ==> s.added[i].id == i)
    && multiset(s.timers) + multiset(s.pending) + multiset(s.fired) == multiset(s.added)
  }

  /** What keeps a sleeping loop from missing t. */
  ghost predicate Covered(s: State, t: Timer)
    requires s.pc.Selecting?
  {
    || s.pipe > 0
    || t.id in s.writers
    || (s.pc.wake.Until? && t.deadline >= s.pc.wake.time)
    || s.pc.wake.Poll?
  }

  ghost predicate WakeKept(s: State) {
    s.pc.Selecting? ==> forall t :: t in s.timers ==> Covered(s, t)
  }

  ghost predicate Inv(s: State) {
    OrderKept(s) && Conserved(s) && WakeKept(s)
  }

  lemma InitInv(s: State)
    requires Init(s)
    ensures Inv(s)
  {
    assert OrderBy(s, s.clock);
  }

  /** It is the place the list in memory gives it. */
  lemma {:induction false} EnlistIsInsert(ts: seq<Timer>, t: Timer)
    ensures Enlist(ts, t) == Timers.Insert(ts, Earlier(DeadlinesOf(ts), t.deadline), t)
  {
    if ts != [] && ts[0].deadline < t.deadline {
      EnlistIsInsert(ts[1..], t);
      assert DeadlinesOf(ts)[1..] == DeadlinesOf(ts[1..]);
      InsertBehind(ts, Earlier(DeadlinesOf(ts[1..]), t.deadline), t);
    }
  }

  lemma {:induction false} EnlistContents(ts: seq<Timer>, t: Timer)
    ensures multiset(Enlist(ts, t)) == multiset(ts) + multiset{t}
  {
    if ts != [] && ts[0].deadline < t.deadline {
      EnlistContents(ts[1..], t);
      assert ts == [ts[0]] + ts[1..];
    }
  }

  lemma EnlistMembers(ts: seq<Timer>, t: Timer, u: Timer)
    ensures u in Enlist(ts, t) <==> u in ts || u == t
  {
    EnlistContents(ts, t);
    assert u in Enlist(ts, t) <==> u in multiset(Enlist(ts, t));
    assert u in ts <==> u in multiset(ts);
  }

  lemma InOrderTail(ts: seq<Timer>)
    requires InOrder(ts) && ts != []
    ensures InOrder(ts[1..]) && AllFrom(ts[1..], ts[0].deadline) && AllFrom(ts, ts[0].deadline)
  {
    var ds := DeadlinesOf(ts);
    assert DeadlinesOf(ts[1..]) == ds[1..];
    forall i | 0 <= i < |ts| ensures ts[i].deadline >= ts[0].deadline {
      assert i > 0 ==> ds[0] <= ds[i];
    }
  }

  lemma InOrderCons(t: Timer, ts: seq<Timer>, bound: int)
    requires InOrder(ts) && AllFrom(ts, t.deadline) && t.deadline >= bound
    ensures InOrder([t] + ts) && AllFrom([t] + ts, bound)
  {
    assert DeadlinesOf([t] + ts) == [t.deadline] + DeadlinesOf(ts);
  }

  lemma {:induction false} EnlistInOrder(ts: seq<Timer>, t: Timer, bound: int)
    requires InOrder(ts) && AllFrom(ts, bound) && t.deadline >= bound
    ensures InOrder(Enlist(ts, t)) && AllFrom(Enlist(ts, t), bound)
  {
    if ts != [] && ts[0].deadline < t.deadline {
      InOrderTail(ts);
      EnlistInOrder(ts[1..], t, ts[0].deadline);
      InOrderCons(ts[0], Enlist(ts[1..], t), bound);
    } else if ts != [] {
      InOrderTail(ts);
      InOrderCons(t, ts, bound);
    }
  }

  lemma AddMembers(s: State, delay: nat)
    ensures forall u :: u in Add(s, delay).timers <==> u in s.timers || u == Timer(|s.added|, s.clock + delay)
  {
    var t := Timer(|s.added|, s.clock + delay);
    forall u ensures u in Enlist(s.timers, t) <==> u in s.timers || u == t {
      EnlistMembers(s.timers, t, u);
    }
  }

  lemma AddKeepsOrder(s: State, delay: nat)
    requires OrderKept(s)
    ensures OrderKept(Add(s, delay))
  {
    var pass :| OrderBy(s, pass);
    EnlistInOrder(s.timers, Timer(|s.added|, s.clock + delay), pass);
    assert OrderBy(Add(s, delay), pass);
  }

  // Neither list changes.
  lemma ListsKept(s: State, s': State)
    requires OrderKept(s) && s'.timers == s.timers && s'.pending == s.pending && s'.fired == s.fired && s'.clock >= s.clock
    requires !(s'.pc.Collecting? || s'.pc.Firing?) ==> s.pending == []
    ensures OrderKept(s')
  {
    var pass :| OrderBy(s, pass);
    assert OrderBy(s', pass);
  }

  lemma AddKeepsAll(s: State, delay: nat)
    requires Conserved(s)
    ensures Conserved(Add(s, delay))
  {
    var t := Timer(|s.added|, s.clock + delay);
    EnlistContents(s.timers, t);
    AddConserves(s, Add(s, delay), t);
  }

  lemma AddConserves(s: State, s': State, t: Timer)
    requires Conserved(s) && t.id == |s.added|
    requires s'.pending == s.pending && s'.fired == s.fired && s'.added == s.added + [t]
    requires multiset(s'.timers) == multiset(s.timers) + multiset{t}
    ensures Conserved(s')
  {
    SumsMatch(multiset(s.timers), multiset(s.pending), multiset(s.fired), s.added, t);
  }

  lemma SumsMatch(a: multiset<Timer>, b: multiset<Timer>, c: multiset<Timer>, added: seq<Timer>, t: Timer)
    requires a + b + c == multiset(added)
    ensures (a + multiset{t}) + b + c == multiset(added + [t])
  {}

  // The expired prefix of the list and the rest, by deadline.
  lemma SplitExpired(ts: seq<Timer>, now: int)
    requires InOrder(ts)
    ensures var k := Earlier(DeadlinesOf(ts), now);
            AllBefore(ts[..k], now) && AllFrom(ts[k..], now)
  {
    var ds := DeadlinesOf(ts);
    var k := Earlier(ds, now);
    forall i | 0 <= i < k ensures ts[..k][i].deadline < now { assert ds[i] < now; }
    forall i | 0 <= i < |ts[k..]| ensures ts[k..][i].deadline >= now {
      assert ts[k].deadline == ds[k] >= now;
      assert ts[k..][i] == ts[k + i];
    }
  }

  lemma SplitContents(ts: seq<Timer>, k: nat)
    requires k <= |ts|
    ensures multiset(ts[..k]) + multiset(ts[k..]) == multiset(ts)
  {
    assert ts == ts[..k] + ts[k..];
  }

  // What fired before and what has just expired.
  lemma JoinExpired(fired: seq<Timer>, gone: seq<Timer>, last: int, now: int)
    requires InOrder(fired) && InOrder(gone) && last <= now
    requires AllBefore(fired, last) && AllFrom(gone, last) && AllBefore(gone, now)
    ensures InOrder(fired + gone) && AllBefore(fired + gone, now)
  {}

  lemma PartsInOrder(due: seq<Timer>, rest: seq<Timer>, last: int)
    requires InOrder(due + rest) && AllFrom(due + rest, last)
    ensures InOrder(due) && AllFrom(due, last) && InOrder(rest)
  {
    var ts := due + rest;
    assert forall i :: 0 <= i < |due| ==> due[i] == ts[i];
    assert forall i :: 0 <= i < |rest| ==> rest[i] == ts[|due| + i];
  }

  // What the pass takes, and what it leaves.
  lemma Taken(s: State) returns (due: seq<Timer>, rest: seq<Timer>)
    requires InOrder(s.timers) && s.pending == [] && s.pc.Expiring?
    ensures s.timers == due + rest && AllBefore(due, s.clock) && AllFrom(rest, s.clock)
    ensures Apply(s, Expire) == s.(pc := Collecting(s.pc.drain), timers := rest, pending := due)
  {
    due, rest := SplitBy(s.timers, s.clock);
    ExpireSplits(s);
  }

  lemma SplitBy(ts: seq<Timer>, now: int) returns (due: seq<Timer>, rest: seq<Timer>)
    requires InOrder(ts)
    ensures var k := Earlier(DeadlinesOf(ts), now); due == ts[..k] && rest == ts[k..]
    ensures ts == due + rest && AllBefore(due, now) && AllFrom(rest, now)
  {
    var k := Earlier(DeadlinesOf(ts), now);
    due, rest := ts[..k], ts[k..];
    SplitExpired(ts, now);
  }

  lemma ExpireSplits(s: State)
    requires s.pending == [] && s.pc.Expiring?
    ensures var k := Earlier(DeadlinesOf(s.timers), s.clock);
            Apply(s, Expire) == s.(pc := Collecting(s.pc.drain), timers := s.timers[k..], pending := s.timers[..k])
  {
    var k := Earlier(DeadlinesOf(s.timers), s.clock);
    assert s.pending + s.timers[..k] == s.timers[..k];
  }

  lemma ExpireKeeps(s: State)
    requires Inv(s) && s.pc.Expiring?
    ensures Inv(Apply(s, Expire))
  {
    ExpireOrders(s);
    SplitContents(s.timers, Earlier(DeadlinesOf(s.timers), s.clock));
  }

  lemma ExpireOrders(s: State)
    requires OrderKept(s) && s.pc.Expiring?
    ensures OrderKept(Apply(s, Expire))
  {
    var pass :| OrderBy(s, pass);
    ExpireBy(s, pass);
  }

  lemma ExpireBy(s: State, pass: int)
    requires OrderBy(s, pass) && s.pc.Expiring?
    ensures OrderBy(Apply(s, Expire), s.clock)
  {
    assert s.fired + [] == s.fired;
    var due, rest := Taken(s);
    PartsInOrder(due, rest, pass);
    JoinExpired(s.fired, due, pass, s.clock);
  }

  lemma FireKeeps(s: State)
    requires Inv(s) && Enabled(s, Fire)
    ensures Inv(Apply(s, Fire))
  {
    var t := s.pending[0];
    assert s.pending == [t] + s.pending[1..];
    assert s.fired + [t] + s.pending[1..] == s.fired + s.pending;
    var pass :| OrderBy(s, pass);
    assert OrderBy(Apply(s, Fire), pass);
  }

  lemma StepKeepsInv(s: State, step: Step)
    requires Inv(s) && Enabled(s, step)
    ensures Inv(Apply(s, step))
  {
    match step {
      case Insert(delay) =>
        AddKeepsOrder(s, delay); AddKeepsAll(s, delay); AddMembers(s, delay);
        ListsKept(Add(s, delay), Apply(s, step));
      case CallbackInsert(delay) => AddKeepsOrder(s, delay); AddKeepsAll(s, delay);
      case Expire => ExpireKeeps(s);
      case Fire => FireKeeps(s);
      case _ =>
        if !(s.pc.Collecting? || s.pc.Firing?) { PendingOnlyWhileFiring(s); }
        ListsKept(s, Apply(s, step));
    }
  }

  lemma PendingOnlyWhileFiring(s: State)
    requires OrderKept(s) && !(s.pc.Collecting? || s.pc.Firing?)
    ensures s.pending == []
  {
    var pass :| OrderBy(s, pass);
  }

  // ---------------------------------------------------------------- runs

  ghost predicate Reaches(start: State, steps: seq<Step>, s: State)
    decreases |steps|
  {
    if steps == [] then s == start
    else Enabled(start, steps[0]) && Reaches(Apply(start, steps[0]), steps[1..], s)
  }

  lemma {:induction false} RunKeepsInv(start: State, steps: seq<Step>, s: State)
    requires Inv(start) && Reaches(start, steps, s)
    ensures Inv(s)
    decreases |steps|
  {
    if steps != [] {
      StepKeepsInv(start, steps[0]);
      RunKeepsInv(Apply(start, steps[0]), steps[1..], s);
    }
  }

  // select has something to return for.
  predicate MustReturn(s: State)
    requires s.pc.Selecting?
  {
    s.pipe > 0 || s.pc.wake.Poll? || (s.pc.wake.Until? && s.clock >= s.pc.wake.time)
  }

  /** No lost wakeup: while the loop is in select, a listed timer is due no
      earlier than the wake time, or the pipe can be read, or its adder has not
      written yet; hence once its adder is through, a timer cannot become due
      without select having something to return for. */
  lemma NoLostWakeup(start: State, steps: seq<Step>, s: State)
    requires Init(start) && Reaches(start, steps, s)
    requires s.pc.Selecting?
    ensures forall t :: t in s.timers ==> Covered(s, t)
    ensures forall t :: t in s.timers && t.deadline <= s.clock && t.id !in s.writers ==> MustReturn(s)
  {
    InitInv(start);
    RunKeepsInv(start, steps, s);
  }

  /** Firing order: over any run timers fire in order of deadline, at most once
      each, and only after their deadline. */
  lemma FiringOrder(start: State, steps: seq<Step>, s: State)
    requires Init(start) && Reaches(start, steps, s)
    ensures InOrder(s.fired)
    ensures forall i, j :: 0 <= i < j < |s.fired| ==> s.fired[i].id != s.fired[j].id
    ensures forall t :: t in s.fired ==> t in s.added && t.deadline < s.clock
  {
    InitInv(start);
    RunKeepsInv(start, steps, s);
    FiredOnce(s);
    var pass :| OrderBy(s, pass);
    forall i, j | 0 <= i < j < |s.fired| ensures s.fired[i].deadline <= s.fired[j].deadline {
      assert (s.fired + s.pending)[i] == s.fired[i] && (s.fired + s.pending)[j] == s.fired[j];
    }
    forall t | t in s.fired ensures t in s.added && t.deadline < s.clock {
      assert t in multiset(s.fired) && t in s.fired + s.pending;
      assert t in multiset(s.added);
    }
  }

  // Before a pass.
  lemma ListsBefore(s: State)
    requires OrderKept(s) && (s.pc.Selecting? || s.pc.Expiring?)
    ensures InOrder(s.timers) && s.pending == []
  {
    var pass :| OrderBy(s, pass);
  }

  lemma SplitMembers(ts: seq<Timer>, due: seq<Timer>, rest: seq<Timer>, now: int)
    requires ts == due + rest && AllBefore(due, now) && AllFrom(rest, now)
    ensures forall t :: t in due <==> t in ts && t.deadline < now
    ensures forall t :: t in rest <==> t in ts && t.deadline >= now
  {}

  /** A pass takes exactly the timers whose deadline is past. */
  lemma PassTakesDue(u: State)
    requires Inv(u) && Enabled(u, Expire)
    ensures var s := Apply(u, Expire);
            && (forall t :: t in s.pending <==> t in u.timers && t.deadline < u.clock)
            && (forall t :: t in s.timers <==> t in u.timers && t.deadline >= u.clock)
            && s.fired == u.fired
  {
    ListsBefore(u);
    var due, rest := Taken(u);
    SplitMembers(u.timers, due, rest, u.clock);
  }

  lemma ToFireFires(s: State, step: Step, t: Timer)
    requires Enabled(s, step) && (t in s.pending || t in s.fired)
    ensures t in Apply(s, step).pending || t in Apply(s, step).fired
  {
    if step.Fire? { assert s.pending == [s.pending[0]] + s.pending[1..]; }
  }

  lemma {:induction false} ToFireHasFired(u: State, steps: seq<Step>, s: State, t: Timer)
    requires Inv(u) && Reaches(u, steps, s) && s.pc.Top? && (t in u.pending || t in u.fired)
    ensures t in s.fired
    decreases |steps|
  {
    if steps == [] {
      PendingOnlyWhileFiring(s);
    } else {
      ToFireFires(u, steps[0], t);
      StepKeepsInv(u, steps[0]);
      ToFireHasFired(Apply(u, steps[0]), steps[1..], s, t);
    }
  }

  /** Nothing due is passed over: in every run, once the loop is back at its top
      after a pass, every timer whose deadline was past at the pass has fired. */
  lemma DueTimersFire(start: State, before: seq<Step>, u: State, after: seq<Step>, s: State)
    requires Init(start) && Reaches(start, before, u) && Enabled(u, Expire)
    requires Reaches(Apply(u, Expire), after, s) && s.pc.Top?
    ensures forall t :: t in u.timers && t.deadline < u.clock ==> t in s.fired
  {
    InitInv(start);
    RunKeepsInv(start, before, u);
    PassTakesDue(u);
    StepKeepsInv(u, Expire);
    forall t | t in u.timers && t.deadline < u.clock ensures t in s.fired {
      ToFireHasFired(Apply(u, Expire), after, s, t);
    }
  }

  // ---------------------------------------------------------------- a turn

  lemma {:induction false} ReachesAppend(a: State, x: seq<Step>, b: State, y: seq<Step>, c: State)
    requires Reaches(a, x, b) && Reaches(b, y, c)
    ensures Reaches(a, x + y, c)
    decreases |x|
  {
    if x == [] {
      assert x + y == y;
    } else {
      assert (x + y)[1..] == x[1..] + y;
      ReachesAppend(Apply(a, x[0]), x[1..], b, y, c);
    }
  }

  lemma OneStep(s: State, step: Step)
    requires Enabled(s, step)
    ensures Reaches(s, [step], Apply(s, step))
  {
    assert [step][1..] == [];
  }

  // All pending callbacks, one after another.
  lemma {:induction false} AllFire(s: State) returns (steps: seq<Step>)
    requires s.pc.Firing?
    ensures Reaches(s, steps, s.(pending := [], fired := s.fired + s.pending))
    decreases |s.pending|
  {
    if s.pending == [] {
      steps := [];
      assert s.fired + [] == s.fired;
    } else {
      var rest := AllFire(Apply(s, Fire));
      steps := [Fire] + rest;
      assert s.fired + [s.pending[0]] + s.pending[1..] == s.fired + s.pending;
      assert steps[1..] == rest;
    }
  }

  // Past the callbacks, to the top.
  lemma BackToTop(s: State) returns (steps: seq<Step>)
    requires s.pc.Firing? && s.pending == []
    ensures Reaches(s, steps, s.(pc := Top, pipe := if s.pc.drain then 0 else s.pipe))
  {
    if s.pc.drain {
      OneStep(s, Drain);
      OneStep(Apply(s, Drain), Again);
      ReachesAppend(s, [Drain], Apply(s, Drain), [Again], Apply(Apply(s, Drain), Again));
      steps := [Drain] + [Again];
    } else {
      OneStep(s, Again);
      steps := [Again];
    }
  }

  // The pass and the walk over the table.
  lemma PassAndCollect(s: State) returns (steps: seq<Step>, due: seq<Timer>, rest: seq<Timer>)
    requires InOrder(s.timers) && s.pending == [] && s.pc.Expiring?
    ensures s.timers == due + rest && AllBefore(due, s.clock) && AllFrom(rest, s.clock)
    ensures Reaches(s, steps, s.(pc := Firing(s.pc.drain), timers := rest, pending := due))
  {
    due, rest := Taken(s);
    var a := s.(pc := Collecting(s.pc.drain), timers := rest, pending := due);
    OneStep(s, Expire);
    OneStep(a, Collect);
    ReachesAppend(s, [Expire], a, [Collect], Apply(a, Collect));
    steps := [Expire] + [Collect];
  }

  // From the pass to the top.
  lemma PassFires(s: State) returns (steps: seq<Step>, due: seq<Timer>, rest: seq<Timer>)
    requires InOrder(s.timers) && s.pending == [] && s.pc.Expiring?
    ensures s.timers == due + rest && AllBefore(due, s.clock) && AllFrom(rest, s.clock)
    ensures Reaches(s, steps, s.(pc := Top, timers := rest, fired := s.fired + due, pipe := if s.pc.drain then 0 else s.pipe))
  {
    var taking;
    taking, due, rest := PassAndCollect(s);
    var b := s.(pc := Firing(s.pc.drain), timers := rest, pending := due);
    steps := FireAndReturn(b);
    ReachesAppend(s, taking, b, steps, s.(pc := Top, timers := rest, fired := s.fired + due, pipe := if s.pc.drain then 0 else s.pipe));
    steps := taking + steps;
  }

  /** The loop can always finish its turn on its own: once select returns, it
      comes back to its top having fired exactly the timers that were due, in
      their order, with the pipe empty. */
  lemma TurnFires(s: State) returns (steps: seq<Step>, due: seq<Timer>, rest: seq<Timer>)
    requires Inv(s) && s.pc.Selecting?
    ensures s.timers == due + rest && AllBefore(due, s.clock) && AllFrom(rest, s.clock)
    ensures Reaches(s, [SelectReturns] + steps, s.(pc := Top, timers := rest, fired := s.fired + due, pipe := 0))
  {
    var a := s.(pc := Expiring(s.pipe > 0));
    ListsBefore(s);
    steps, due, rest := PassFires(a);
    var end := a.(pc := Top, timers := rest, fired := s.fired + due, pipe := if s.pipe > 0 then 0 else s.pipe);
    OneStep(s, SelectReturns);
    ReachesAppend(s, [SelectReturns], a, steps, end);
  }

  lemma FireAndReturn(b: State) returns (steps: seq<Step>)
    requires b.pc.Firing?
    ensures Reaches(b, steps, b.(pc := Top, pending := [], fired := b.fired + b.pending, pipe := if b.pc.drain then 0 else b.pipe))
  {
    var fires := AllFire(b);
    var c := b.(pending := [], fired := b.fired + b.pending);
    var back := BackToTop(c);
    ReachesAppend(b, fires, c, back, c.(pc := Top, pipe := if c.pc.drain then 0 else c.pipe));
    steps := fires + back;
  }

  lemma FiredOnce(s: State)
    requires Conserved(s)
    ensures forall i, j :: 0 <= i < j < |s.fired| ==> s.fired[i].id != s.fired[j].id
  {
    forall i, j | 0 <= i < j < |s.fired| ensures s.fired[i].id != s.fired[j].id {
      var t, u := s.fired[i], s.fired[j];
      assert t in multiset(s.fired) && u in multiset(s.fired);
      assert t in multiset(s.added) && u in multiset(s.added);
      assert t in s.added && u in s.added;
      AddedOnce(s.added, t);
      if t.id == u.id {
        assert t == u;
        Twice(s.fired, i, j);
      }
    }
  }

  // Identities are positions among the timers added.
  lemma {:induction false} AddedOnce(added: seq<Timer>, t: Timer)
    requires forall i :: 0 <= i < |added| ==> added[i].id == i
    ensures multiset(added)[t] <= 1
  {
    if added != [] {
      var n := |added| - 1;
      AddedOnce(added[..n], t);
      assert added == added[..n] + [added[n]];
      if added[n] == t {
        assert t !in added[..n];
        assert multiset(added[..n])[t] == 0;
      }
    }
  }

  lemma Twice(s: seq<Timer>, i: nat, j: nat)
    requires i < j < |s| && s[i] == s[j]
    ensures multiset(s)[s[i]] >= 2
  {
    assert s == s[..j] + s[j..];
    assert s[i] in s[..j] && s[i] in s[j..];
    assert multiset(s[..j])[s[i]] >= 1 && multiset(s[j..])[s[i]] >= 1;
  }
}
