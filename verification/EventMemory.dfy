/** The steps of the event loop's runs on the lists in memory: what the methods
    do to the one is what the steps do to the other. */
module EventMemory {
  import opened Basics
  import opened Timers
  import opened EventList
  import opened EventLoop
  import R = EventRuns

  // The timer that each event is.
  type Names = map<Event, R.Timer>

  ghost predicate Dated(names: Names)
    reads names.Keys`timeout
  {
    forall e :: e in names ==> e.timeout.Micros() == names[e].deadline
  }

  // Event by event these are the timers.
  ghost predicate Same(evs: seq<Event>, ts: seq<R.Timer>, names: Names) {
    |evs| == |ts| && forall i :: 0 <= i < |evs| ==> evs[i] in names && names[evs[i]] == ts[i]
  }

  /** The lists in memory are those of the run. */
  ghost predicate Stands(lists: EventLists, s: R.State, names: Names)
    reads lists, lists.timerList, lists.pendingList, lists.timers, lists.pending, names.Keys`timeout
  {
    && lists.Valid() && lists.clock.Micros() == s.clock && Dated(names)
    && Same(lists.timers, s.timers, names) && Same(lists.pending, s.pending, names) && Same(lists.fired, s.fired, names)
  }

  lemma SameDeadlines(evs: seq<Event>, ts: seq<R.Timer>, names: Names)
    requires Dated(names) && Same(evs, ts, names)
    ensures Deadlines(evs) == R.DeadlinesOf(ts)
  {}

  // The first k move from the front of one list to the end of another.
  lemma SameMove(evs: seq<Event>, ts: seq<R.Timer>, to: seq<Event>, us: seq<R.Timer>, k: nat, names: Names)
    requires Same(evs, ts, names) && Same(to, us, names) && k <= |evs|
    ensures Same(evs[k..], ts[k..], names) && Same(to + evs[..k], us + ts[..k], names)
  {}

  lemma SameInsert(evs: seq<Event>, ts: seq<R.Timer>, names: Names, ev: Event, t: R.Timer, k: nat)
    requires Same(evs, ts, names) && k <= |evs| && ev in names && names[ev] == t
    ensures Same(Timers.Insert(evs, k, ev), Timers.Insert(ts, k, t), names)
  {}

  lemma SameMore(evs: seq<Event>, ts: seq<R.Timer>, names: Names, ev: Event, t: R.Timer)
    requires Same(evs, ts, names) && ev !in names
    ensures Same(evs, ts, names[ev := t])
  {}

  /** processTimeouts is the pass: some time goes by, and the due timers move. */
  method Expire(lists: EventLists, ghost s: R.State, ghost names: Names) returns (now: Timeval, ghost micros: nat)
    requires Stands(lists, s, names) && s.pc.Expiring?
    modifies lists`clock, lists`timers, lists`pending
    modifies lists.TimerRing()`next, lists.TimerRing()`prev, lists.PendingRing()`next, lists.PendingRing()`prev
    ensures Stands(lists, R.Apply(R.Apply(s, R.Tick(micros)), R.Expire), names)
  {
    ghost var all, waiting := lists.timers, lists.pending;
    SameDeadlines(all, s.timers, names);
    now := lists.ProcessTimeouts();
    micros := now.Micros() - s.clock;
    SameMove(all, s.timers, waiting, s.pending, Earlier(R.DeadlinesOf(s.timers), now.Micros()), names);
  }

  /** One turn of firePending's loop is the firing of the first pending timer. */
  method Fire(lists: EventLists, ev: Event, ghost s: R.State, ghost names: Names) returns (next: Event)
    requires Stands(lists, s, names) && R.Enabled(s, R.Fire) && ev == lists.pending[0]
    modifies lists`pending, lists`fired, lists.PendingRing()`next, lists.PendingRing()`prev
    ensures Stands(lists, R.Apply(s, R.Fire), names)
  {
    ghost var waiting, done := lists.pending, lists.fired;
    SameMove(waiting, s.pending, done, s.fired, 1, names);
    next := lists.TakePending(ev);
    DeadlinesUntouched(lists.timers);
    lists.NoteFired(ev);
    assert waiting[..1] == [ev] && s.pending[..1] == [s.pending[0]];
  }

  // The state with one more timer, at that place.
  function WithTimer(s: R.State, clock: int, t: R.Timer): R.State {
    s.(clock := clock, added := s.added + [t],
       timers := Timers.Insert(s.timers, Earlier(R.DeadlinesOf(s.timers), t.deadline), t))
  }

  // The insertion, in terms of the place that the list in memory gives it.
  lemma Added(s: R.State, micros: nat, delay: nat)
    ensures R.Add(R.Apply(s, R.Tick(micros)), delay)
            == WithTimer(s, s.clock + micros, R.Timer(|s.added|, s.clock + micros + delay))
  {
    R.EnlistIsInsert(s.timers, R.Timer(|s.added|, s.clock + micros + delay));
  }

  // A new event gets its name.
  lemma NewName(lists: EventLists, all: seq<Event>, s: R.State, names: Names, ev: Event, t: R.Timer)
    requires Dated(names) && ev !in names && ev.timeout.Micros() == t.deadline
    requires Same(all, s.timers, names) && Same(lists.pending, s.pending, names) && Same(lists.fired, s.fired, names)
    ensures var names' := names[ev := t];
            && Dated(names') && Same(lists.pending, s.pending, names') && Same(lists.fired, s.fired, names')
            && forall k :: 0 <= k <= |all| ==> Same(Timers.Insert(all, k, ev), Timers.Insert(s.timers, k, t), names')
  {
    SameMore(all, s.timers, names, ev, t);
    SameMore(lists.pending, s.pending, names, ev, t);
    SameMore(lists.fired, s.fired, names, ev, t);
    forall k | 0 <= k <= |all| ensures Same(Timers.Insert(all, k, ev), Timers.Insert(s.timers, k, t), names[ev := t]) {
      SameInsert(all, s.timers, names[ev := t], ev, t, k);
    }
  }

  method RequestTimed(lists: EventLists, delay: Timeval, ghost s: R.State, ghost names: Names)
      returns (ghost t: R.Timer, ghost names': Names)
    requires Stands(lists, s, names) && delay.Normal()
    modifies lists`clock, lists`timers, lists.TimerRing()`next, lists.TimerRing()`prev
    ensures lists.clock.Micros() >= s.clock && t == R.Timer(|s.added|, lists.clock.Micros() + delay.Micros())
    ensures Stands(lists, WithTimer(s, lists.clock.Micros(), t), names')
  {
    ghost var all := lists.timers;
    SameDeadlines(all, s.timers, names);
    ghost var added := lists.RequestTimed(delay);
    t := R.Timer(|s.added|, lists.clock.Micros() + delay.Micros());
    NewName(lists, all, s, names, added, t);
    names' := names[added := t];
    ghost var k := Earlier(R.DeadlinesOf(s.timers), t.deadline);
    assert lists.timers == Timers.Insert(all, k, added);
  }

  /** internalRequestTimedCallback is the insertion of the next timer, from another
      thread and, while callbacks run, from one of them. */
  method Request(lists: EventLists, delay: Timeval, ghost s: R.State, ghost names: Names)
      returns (ghost micros: nat, ghost names': Names)
    requires Stands(lists, s, names) && delay.Normal()
    modifies lists`clock, lists`timers, lists.TimerRing()`next, lists.TimerRing()`prev
    ensures var later := R.Apply(s, R.Tick(micros));
            && Stands(lists, R.Apply(later, R.Insert(delay.Micros())), names')
            && (s.pc.Firing? ==> Stands(lists, R.Apply(later, R.CallbackInsert(delay.Micros())), names'))
  {
    ghost var t;
    t, names' := RequestTimed(lists, delay, s, names);
    micros := lists.clock.Micros() - s.clock;
    AddStands(lists, s, micros, delay.Micros(), t, names');
  }

  lemma AddStands(lists: EventLists, s: R.State, micros: nat, delay: nat, t: R.Timer, names: Names)
    requires t == R.Timer(|s.added|, s.clock + micros + delay)
    requires Stands(lists, WithTimer(s, s.clock + micros, t), names)
    ensures Stands(lists, R.Add(R.Apply(s, R.Tick(micros)), delay), names)
  {
    Added(s, micros, delay);
  }

  /** calcNextTimeout gives the time that the loop's step goes to sleep for. */
  method Calc(lists: EventLists, ghost s: R.State, ghost names: Names) returns (tv: Option<Timeval>, ghost micros: nat)
    requires Stands(lists, s, names) && s.pc.Top?
    modifies lists`clock
    ensures var s' := R.Apply(R.Apply(s, R.Tick(micros)), R.Calc);
            && Stands(lists, s', names)
            && match s'.pc.wake
               case Forever => tv.None?
               case Poll => tv.Some? && tv.value.Micros() == 0
               case Until(time) => tv.Some? && tv.value.Micros() == time - s'.clock > 0
  {
    SameDeadlines(lists.timers, s.timers, names);
    var now;
    tv, now := lists.CalcNextTimeout();
    micros := now.Micros() - s.clock;
  }
}
