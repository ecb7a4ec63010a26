/** One turn of the event loop over both its structures, with callbacks that add
    timers and add, set up and delete watches (firePending and ril_event_loop in
    libril/ril_event.cpp; the callbacks of libril/ril.cpp). */
module EventTurn {
  import opened Basics
  import opened Timers
  import opened EventList
  import opened EventLoop
  import opened WatchTable

  /** A call a callback makes to the loop. */
  datatype Action =
    | AddTimer(delay: Timeval)                       // internalRequestTimedCallback
    | SetUp(ev: Event, fd: int, persist: bool)       // ril_event_set
    | AddWatch(ev: Event)                            // ril_event_add
    | DelWatch(ev: Event)                            // ril_event_del

  // What ril_event_set has given an event.
  datatype Setting = Setting(fd: int, persist: bool)

  /** What a turn does to the watches: the table and the read set, the settings
      of the events that callbacks name, and which of those are on a list. */
  datatype View = View(slots: seq<Event?>, readFds: set<int>, settings: map<Event, Setting>, linked: set<Event>)

  // A callback sets up only an event on no list and not in the table.
  ghost predicate MaySetUp(v: View, ev: Event) {
    ev in v.settings && ev !in v.linked && ev !in v.slots
  }

  // It adds only an event on no list whose descriptor is open and not watched.
  ghost predicate MayAdd(v: View, ev: Event) {
    ev in v.settings && ev !in v.linked && v.settings[ev].fd >= 0 && v.settings[ev].fd !in v.readFds
  }

  // The effect of one call on the watches.
  ghost function Perform(v: View, a: Action): View {
    match a
    case AddTimer(_) => v
    case SetUp(ev, fd, persist) =>
      if MaySetUp(v, ev) then v.(settings := v.settings[ev := Setting(fd, persist)]) else v
    case AddWatch(ev) =>
      var i := FirstFree(v.slots);
      if MayAdd(v, ev) && i < |v.slots| then v.(slots := v.slots[i := ev], readFds := v.readFds + {v.settings[ev].fd}) else v
    case DelWatch(ev) =>
      if ev in v.settings && ev in v.slots then v.(slots := Cleared(v.slots, ev), readFds := v.readFds - {v.settings[ev].fd}) else v
  }

  // All calls of one callback.
  ghost function PerformAll(v: View, plan: seq<Action>): View {
    if plan == [] then v
    else
      var n := |plan| - 1;
      Perform(PerformAll(v, plan[..n]), plan[n])
  }

  // One event's callback: the event leaves its list, then its plan is carried out.
  ghost function FireView(v: View, ev: Event, plan: seq<Action>): View {
    PerformAll(v.(linked := v.linked - {ev}), plan)
  }

  // The plan of the next callback, and those of the callbacks after it.
  function Next(plans: seq<seq<Action>>): seq<Action> {
    if plans == [] then [] else plans[0]
  }

  function Later(plans: seq<seq<Action>>): seq<seq<Action>> {
    if plans == [] then [] else plans[1..]
  }

  /** The callbacks of the events, one after another. */
  ghost function FireAll(v: View, events: seq<Event>, plans: seq<seq<Action>>): View
    decreases |events|
  {
    if events == [] then v else FireAll(FireView(v, events[0], Next(plans)), events[1..], Later(plans))
  }

  // The plans that so many callbacks leave.
  function PlansLeft(plans: seq<seq<Action>>, n: nat): seq<seq<Action>> {
    if n == 0 then plans else PlansLeft(Later(plans), n - 1)
  }

  // The timers that one callback adds, and that so many callbacks add.
  function TimersIn(plan: seq<Action>): nat {
    if plan == [] then 0 else TimersIn(plan[..|plan| - 1]) + (if plan[|plan| - 1].AddTimer? then 1 else 0)
  }

  function TimersOf(plans: seq<seq<Action>>, n: nat): nat {
    if n == 0 then 0 else TimersIn(Next(plans)) + TimersOf(Later(plans), n - 1)
  }

  // Where firing ends: the watches, the plans left and the number of timers.
  datatype Outcome = Outcome(view: View, plans: seq<seq<Action>>, timers: nat)

  /** From the view v, with so many timers listed, firing the events with these
      plans comes to `end`. */
  ghost predicate Comes(v: View, timers: nat, events: seq<Event>, plans: seq<seq<Action>>, end: Outcome) {
    end == Outcome(FireAll(v, events, plans), PlansLeft(plans, |events|), timers + TimersOf(plans, |events|))
  }

  lemma ComesNext(v: View, timers: nat, events: seq<Event>, plans: seq<seq<Action>>, end: Outcome)
    requires events != [] && Comes(v, timers, events, plans, end)
    ensures Comes(FireView(v, events[0], Next(plans)), timers + TimersIn(Next(plans)), events[1..], Later(plans), end)
  {}

  lemma ComesEnd(v: View, timers: nat, events: seq<Event>, plans: seq<seq<Action>>, end: Outcome)
    requires events == [] && Comes(v, timers, events, plans, end)
    ensures end == Outcome(v, plans, timers)
  {}

  // Nothing in the plan deletes the event.
  ghost predicate Spares(plan: seq<Action>, ev: Event) {
    forall i :: 0 <= i < |plan| ==> plan[i] != DelWatch(ev)
  }

  lemma {:induction false} PlanKeeps(v: View, plan: seq<Action>, i: nat)
    requires i < |v.slots| && v.slots[i] != null && Spares(plan, v.slots[i])
    ensures |PerformAll(v, plan).slots| == |v.slots| && PerformAll(v, plan).slots[i] == v.slots[i]
  {
    if plan != [] {
      PlanKeeps(v, plan[..|plan| - 1], i);
    }
  }

  lemma PlanMore(v: View, plan: seq<Action>, i: nat)
    requires i < |plan|
    ensures PerformAll(v, plan[..i + 1]) == Perform(PerformAll(v, plan[..i]), plan[i])
    ensures TimersIn(plan[..i + 1]) == TimersIn(plan[..i]) + (if plan[i].AddTimer? then 1 else 0)
  {
    assert plan[..i + 1][..i] == plan[..i];
  }

  /** Whatever the callbacks do, an entry stays in its slot unless one of them
      deletes its event. */
  lemma {:induction false} KeptUnlessDeleted(v: View, events: seq<Event>, plans: seq<seq<Action>>, i: nat)
    requires i < |v.slots| && v.slots[i] != null
    requires forall k :: 0 <= k < |plans| ==> Spares(plans[k], v.slots[i])
    ensures |FireAll(v, events, plans).slots| == |v.slots| && FireAll(v, events, plans).slots[i] == v.slots[i]
    decreases |events|
  {
    if events != [] {
      PlanKeeps(v.(linked := v.linked - {events[0]}), Next(plans), i);
      KeptUnlessDeleted(FireView(v, events[0], Next(plans)), events[1..], Later(plans), i);
    }
  }

  ghost predicate OnlyTimers(plan: seq<Action>) {
    forall i :: 0 <= i < |plan| ==> plan[i].AddTimer?
  }

  lemma {:induction false} TimersChangeNothing(v: View, plan: seq<Action>)
    requires OnlyTimers(plan)
    ensures PerformAll(v, plan) == v
  {
    if plan != [] { TimersChangeNothing(v, plan[..|plan| - 1]); }
  }

  /** Callbacks that only add timers leave the watches alone: nothing changes but
      that the events are no longer on a list. */
  lemma {:induction false} TimersLeaveWatches(v: View, events: seq<Event>, plans: seq<seq<Action>>)
    requires forall k :: 0 <= k < |plans| ==> OnlyTimers(plans[k])
    ensures FireAll(v, events, plans) == v.(linked := v.linked - (set e | e in events))
    decreases |events|
  {
    if events != [] {
      var next := v.(linked := v.linked - {events[0]});
      TimersChangeNothing(next, Next(plans));
      TimersLeaveWatches(next, events[1..], Later(plans));
      assert v.linked - {events[0]} - (set e | e in events[1..]) == v.linked - (set e | e in events);
    }
  }

  /** Callbacks one after another: the first ones with the first plans, then the
      others with the others. */
  lemma {:induction false} FireAppend(v: View, a: seq<Event>, p: seq<seq<Action>>, b: seq<Event>, q: seq<seq<Action>>)
    requires |a| == |p|
    ensures FireAll(v, a + b, p + q) == FireAll(FireAll(v, a, p), b, q)
    decreases |a|
  {
    if a == [] {
      assert a + b == b && p + q == q;
    } else {
      assert (a + b)[1..] == a[1..] + b && (p + q)[1..] == p[1..] + q;
      FireAppend(FireView(v, a[0], p[0]), a[1..], p[1..], b, q);
    }
  }

  lemma OneCall(v: View, fired: Event, a: Action)
    ensures FireAll(v, [fired], [[a]]) == Perform(v.(linked := v.linked - {fired}), a)
  {
    var before := v.(linked := v.linked - {fired});
    assert [fired][1..] == [] && [a][..0] == [];
    assert FireAll(v, [fired], [[a]]) == PerformAll(before, [a]) == Perform(before, a);
  }

  /** A callback that adds a watch puts the event in the first free slot, and its
      descriptor in the read set; the event fired may be the one added. */
  lemma AddIsMade(v: View, fired: Event, ev: Event, i: nat)
    requires ev in v.settings && (ev == fired || ev !in v.linked)
    requires 0 <= v.settings[ev].fd && v.settings[ev].fd !in v.readFds
    requires i < |v.slots| && v.slots[i] == null && forall j :: 0 <= j < i ==> v.slots[j] != null
    ensures FireAll(v, [fired], [[AddWatch(ev)]])
            == View(v.slots[i := ev], v.readFds + {v.settings[ev].fd}, v.settings, v.linked - {fired})
  {
    OneCall(v, fired, AddWatch(ev));
  }

  /** One that deletes a watch takes the event, and it alone, out of its slot, and
      its descriptor out of the read set. */
  lemma DeleteIsMade(v: View, fired: Event, ev: Event, i: nat)
    requires ev in v.settings && i < |v.slots| && v.slots[i] == ev
    requires forall j :: 0 <= j < |v.slots| && j != i ==> v.slots[j] != ev
    ensures FireAll(v, [fired], [[DelWatch(ev)]])
            == View(v.slots[i := null], v.readFds - {v.settings[ev].fd}, v.settings, v.linked - {fired})
  {
    OneCall(v, fired, DelWatch(ev));
    assert ev in v.slots && Cleared(v.slots, ev) == v.slots[i := null];
  }

  /** One that sets an event up gives it its settings. */
  lemma SetUpIsMade(v: View, fired: Event, ev: Event, fd: int, persist: bool)
    requires ev in v.settings && (ev == fired || ev !in v.linked) && ev !in v.slots
    ensures FireAll(v, [fired], [[SetUp(ev, fd, persist)]])
            == View(v.slots, v.readFds, v.settings[ev := Setting(fd, persist)], v.linked - {fired})
  {
    OneCall(v, fired, SetUp(ev, fd, persist));
  }

  /** Deleting undoes adding. */
  lemma AddThenDelete(v: View, ev: Event)
    requires MayAdd(v, ev) && ev !in v.slots
    ensures Perform(Perform(v, AddWatch(ev)), DelWatch(ev)) == v
  {
    var i := FirstFree(v.slots);
    if i < |v.slots| {
      assert Cleared(v.slots[i := ev], ev) == v.slots;
      assert v.readFds + {v.settings[ev].fd} - {v.settings[ev].fd} == v.readFds;
      assert v.slots[i := ev][i] == ev;
    }
  }

  class Loop {
    const lists: EventLists
    const watches: Watches
    ghost const named: set<Event>    // the events that callbacks name
    var plans: seq<seq<Action>>      // what the callbacks to come will call

    ghost predicate ActionOk(a: Action) {
      match a
      case AddTimer(delay) => delay.Normal()
      case SetUp(ev, _, _) => ev in named
      case AddWatch(ev) => ev in named
      case DelWatch(ev) => ev in named
    }

    ghost predicate PlanOk(plan: seq<Action>) {
      forall i :: 0 <= i < |plan| ==> ActionOk(plan[i])
    }

    ghost predicate PlansOk()
      reads this`plans
    {
      forall i :: 0 <= i < |plans| ==> PlanOk(plans[i])
    }

    /** Both lists well-formed and in order; table, read set and nfds in
        agreement; no watched event on the timer list. */
    ghost predicate Valid()
      reads lists, lists.timerList, lists.pendingList, lists.timers, lists.pending
      reads watches, watches.table, watches.table[..]
    {
      lists.Valid() && watches.Valid() && watches.OffTimers(lists)
    }

    ghost function Settings(): map<Event, Setting>
      reads named`fd, named`persist
    {
      map e | e in named :: Setting(e.fd, e.persist)
    }

    ghost function Linked(): set<Event>
      reads named`next
    {
      set e | e in named && e.next != null
    }

    ghost function Snapshot(): View
      reads watches, watches.table, named`fd, named`persist, named`next
    {
      View(watches.table[..], watches.readFds, Settings(), Linked())
    }

    /** No callback touches the entry of an event that none of them may name. */
    lemma UnnamedStays(v: View, events: seq<Event>, i: nat)
      requires PlansOk() && i < |v.slots| && v.slots[i] != null && v.slots[i] !in named
      ensures |FireAll(v, events, plans).slots| == |v.slots| && FireAll(v, events, plans).slots[i] == v.slots[i]
    {
      forall k | 0 <= k < |plans| ensures Spares(plans[k], v.slots[i]) {
        assert PlanOk(plans[k]);
        forall j | 0 <= j < |plans[k]| ensures plans[k][j] != DelWatch(v.slots[i]) { assert ActionOk(plans[k][j]); }
      }
      KeptUnlessDeleted(v, events, plans, i);
    }

    constructor (lists: EventLists, watches: Watches, ghost named: set<Event>)
      ensures this.lists == lists && this.watches == watches && this.named == named && plans == []
    {
      this.lists := lists;
      this.watches := watches;
      this.named := named;
      plans := [];
    }

    // ---------------------------------------------------------------- what callbacks call

    // The new timer leaves the watches alone.
    method NewTimer(delay: Timeval)
      requires Valid() && delay.Normal()
      modifies lists`clock, lists`timers, lists.TimerRing()`next, lists.TimerRing()`prev
      ensures Valid() && lists.OnlyAdds() && |lists.timers| == |old(lists.timers)| + 1
      ensures forall i :: 0 <= i < |lists.TimerRing()| ==> lists.TimerRing()[i] in old(lists.TimerRing()) || fresh(lists.TimerRing()[i])
    {
      ghost var added := lists.RequestTimed(delay);
      watches.TableUntouched();
    }

    // Nor does it put another event on a list.
    method Request(delay: Timeval)
      requires Valid() && delay.Normal()
      modifies lists`clock, lists`timers, lists.TimerRing()`next, lists.TimerRing()`prev
      ensures Valid() && lists.OnlyAdds() && Snapshot() == old(Snapshot()) && |lists.timers| == |old(lists.timers)| + 1
      ensures forall i :: 0 <= i < |lists.TimerRing()| ==> lists.TimerRing()[i] in old(lists.TimerRing()) || fresh(lists.TimerRing()[i])
    {
      lists.MembersLinked();
      NewTimer(delay);
      lists.MembersLinked();
      forall e | e in named ensures e.next != null <==> old(e.next) != null {
        if e in old(lists.TimerRing()) { assert e in lists.TimerRing(); }
      }
      assert Linked() == old(Linked());
      assert Settings() == old(Settings());
    }

    /** ril_event_add from a callback, which makes it only for an event on no
        list, whose descriptor is open and not watched.  The callback's own event
        is such an event once it has left its lists. */
    method Watch(ev: Event)
      requires Valid()
      modifies watches, watches.table, ev`index
      ensures Valid() && lists.OnlyAdds()
      ensures if old(ev.fd >= 0 && ev.fd !in watches.readFds && ev.next == null) && FirstFree(old(watches.table[..])) < MAX_FD_EVENTS then
                && watches.table[..] == old(watches.table[..])[FirstFree(old(watches.table[..])) := ev]
                && watches.readFds == old(watches.readFds) + {ev.fd}
              else watches.table[..] == old(watches.table[..]) && watches.readFds == old(watches.readFds)
      ensures ev in named ==> Snapshot() == Perform(old(Snapshot()), AddWatch(ev))
    {
      AddTo(ev);
      assert Settings() == old(Settings()) && Linked() == old(Linked());
    }

    // The same, of the table and the read set alone.
    method AddTo(ev: Event)
      requires Valid()
      modifies watches, watches.table, ev`index
      ensures Valid() && lists.OnlyAdds()
      ensures if old(ev.fd >= 0 && ev.fd !in watches.readFds && ev.next == null) && FirstFree(old(watches.table[..])) < MAX_FD_EVENTS then
                && watches.table[..] == old(watches.table[..])[FirstFree(old(watches.table[..])) := ev]
                && watches.readFds == old(watches.readFds) + {ev.fd}
              else watches.table[..] == old(watches.table[..]) && watches.readFds == old(watches.readFds)
    {
      if ev.fd >= 0 && ev.fd !in watches.readFds && ev.next == null {
        lists.Unlinked(ev);
        ghost var slots := watches.table[..];
        watches.Add(ev);
        DeadlinesUntouched(lists.timers);
        forall j | 0 <= j < MAX_FD_EVENTS && watches.table[j] != null
          ensures watches.table[j] !in lists.TimerRing() && watches.table[j] != lists.pendingList
        {
          assert watches.table[..][j] == slots[j] || watches.table[j] == ev;
          assert lists.PendingRing()[0] == lists.pendingList;
        }
      }
    }

    /** ril_event_set from a callback, which makes it only for an event on no
        list and not in the table. */
    method Prepare(ev: Event, fd: int, persist: bool)
      requires Valid()
      modifies ev
      ensures Valid() && lists.OnlyAdds()
      ensures if old(ev.next == null && ev !in watches.table[..]) then ev.fd == fd && ev.persist == persist && ev.index == -1
              else unchanged(ev)
      ensures ev in named ==> Snapshot() == Perform(old(Snapshot()), SetUp(ev, fd, persist))
    {
      if ev.next == null && forall i | 0 <= i < MAX_FD_EVENTS :: watches.table[i] != ev {
        lists.Unlinked(ev);
        ev.Set(fd, persist);
      }
    }

    /** ril_event_del from a callback: the table loses the event and no other,
        nothing changes for an event in no slot, and an event that is pending
        stays pending. */
    method Unwatch(ev: Event)
      requires Valid()
      modifies watches, watches.table, ev`index
      ensures Valid() && lists.OnlyAdds() && lists.pending == old(lists.pending)
      ensures watches.table[..] == Cleared(old(watches.table[..]), ev)
      ensures watches.readFds == old(watches.readFds) - (if ev in old(watches.table[..]) then {ev.fd} else {})
      ensures ev in named ==> Snapshot() == Perform(old(Snapshot()), DelWatch(ev))
    {
      forall j | 0 <= j < MAX_FD_EVENTS && watches.table[j] == ev ensures ev.index == j { assert watches.SlotOk(j); }
      if 0 <= ev.index < MAX_FD_EVENTS && watches.table[ev.index] != ev {
        return;
      }
      ghost var slots := watches.table[..];
      watches.Del(ev);
      DeadlinesUntouched(lists.timers);
      assert forall j :: 0 <= j < MAX_FD_EVENTS ==> watches.table[..][j] == slots[j] || watches.table[..][j] == null;
    }

    // The timer ring gains new events only.
    twostate predicate RingGrows()
      reads lists`timers
    {
      forall i :: 0 <= i < |lists.TimerRing()| ==> lists.TimerRing()[i] in old(lists.TimerRing()) || fresh(lists.TimerRing()[i])
    }

    twostate lemma RingGrown()
      requires lists.OnlyAdds()
      ensures RingGrows()
    {}

    method Act(a: Action)
      requires Valid() && ActionOk(a)
      modifies lists`clock, lists`timers, lists.TimerRing()`next, lists.TimerRing()`prev
      modifies watches, watches.table, named
      ensures Valid() && RingGrows() && lists.OnlyAdds()
      ensures Snapshot() == Perform(old(Snapshot()), a)
      ensures |lists.timers| == |old(lists.timers)| + (if a.AddTimer? then 1 else 0)
    {
      match a {
        case AddTimer(delay) => Request(delay);
        case SetUp(ev, fd, persist) => Prepare(ev, fd, persist);
        case AddWatch(ev) => Watch(ev);
        case DelWatch(ev) => Unwatch(ev);
      }
    }

    // All the calls of one callback.
    method ActAll(plan: seq<Action>)
      requires Valid() && PlanOk(plan)
      modifies lists`clock, lists`timers, lists.TimerRing()`next, lists.TimerRing()`prev
      modifies watches, watches.table, named
      ensures Valid() && RingGrows() && lists.OnlyAdds()
      ensures Snapshot() == PerformAll(old(Snapshot()), plan) && |lists.timers| == |old(lists.timers)| + TimersIn(plan)
    {
      for i := 0 to |plan|
        invariant Valid() && RingGrows() && lists.OnlyAdds()
        invariant Snapshot() == PerformAll(old(Snapshot()), plan[..i])
        invariant |lists.timers| == |old(lists.timers)| + TimersIn(plan[..i])
      {
        PlanMore(old(Snapshot()), plan, i);
        Act(plan[i]);
      }
      assert plan[..|plan|] == plan;
    }

    // ev->func
    method Callback(ev: Event)
      requires Valid() && PlansOk()
      modifies this`plans, lists`clock, lists`timers, lists`fired, lists.TimerRing()`next, lists.TimerRing()`prev
      modifies watches, watches.table, named
      ensures Valid() && PlansOk() && RingGrows() && lists.OnlyAdds() && lists.fired == old(lists.fired) + [ev]
      ensures plans == Later(old(plans)) && Snapshot() == PerformAll(old(Snapshot()), Next(old(plans)))
      ensures |lists.timers| == |old(lists.timers)| + TimersIn(Next(old(plans)))
    {
      lists.NoteFired(ev);
      if plans != [] {
        var plan := plans[0];
        plans := plans[1..];
        ActAll(plan);
      }
    }

    // The first pending event leaves its list; the table is left alone.
    method Take(ev: Event) returns (next: Event)
      requires Valid() && lists.pending != [] && ev == lists.pending[0]
      modifies lists`pending, lists.PendingRing()`next, lists.PendingRing()`prev
      ensures Valid() && old(lists.pending) == [ev] + lists.pending && lists.pending == old(lists.pending)[1..]
      ensures forall i :: 0 <= i < |lists.PendingRing()| ==> lists.PendingRing()[i] in old(lists.PendingRing())
      ensures next == if lists.pending != [] then lists.pending[0] else lists.pendingList
      ensures ev.next == null
      ensures Snapshot() == old(Snapshot()).(linked := old(Snapshot().linked) - {ev})
    {
      lists.MembersLinked();
      next := lists.TakePending(ev);
      lists.MembersLinked();
      DeadlinesUntouched(lists.timers);
      watches.TableUntouched();
      forall e | e in named ensures e.next != null <==> old(e.next) != null && e != ev {
        if e in old(lists.PendingRing()) && e != ev { assert e in lists.PendingRing(); }
      }
      assert Linked() == old(Linked()) - {ev};
    }

    // One turn of firePending's loop.
    method FireOne(ev: Event) returns (next: Event)
      requires Valid() && PlansOk() && lists.pending != [] && ev == lists.pending[0]
      modifies this`plans, lists`clock, lists`timers, lists`pending, lists`fired
      modifies lists.TimerRing()`next, lists.TimerRing()`prev, lists.PendingRing()`next, lists.PendingRing()`prev
      modifies watches, watches.table, named
      ensures Valid() && PlansOk() && RingGrows() && lists.OnlyAdds()
      ensures lists.pending == old(lists.pending)[1..]
      ensures lists.fired + lists.pending == old(lists.fired) + old(lists.pending)
      ensures forall i :: 0 <= i < |lists.PendingRing()| ==> lists.PendingRing()[i] in old(lists.PendingRing())
      ensures next == if lists.pending != [] then lists.pending[0] else lists.pendingList
      ensures plans == Later(old(plans)) && Snapshot() == FireView(old(Snapshot()), ev, Next(old(plans)))
      ensures |lists.timers| == |old(lists.timers)| + TimersIn(Next(old(plans)))
    {
      ghost var fired := lists.fired;
      next := Take(ev);
      Associate(fired, [ev], lists.pending);
      Callback(ev);
    }

    /** firePending: every pending event has its callback called, in list order,
        once each, whatever the callbacks add or delete; the list is left empty,
        and the watches are what the callbacks make of them one after another. */
    method FirePending()
      requires Valid() && PlansOk()
      modifies this`plans, lists`clock, lists`timers, lists`pending, lists`fired
      modifies lists.TimerRing()`next, lists.TimerRing()`prev, lists.PendingRing()`next, lists.PendingRing()`prev
      modifies watches, watches.table, named
      ensures Valid() && PlansOk() && lists.OnlyAdds()
      ensures lists.pending == [] && lists.fired == old(lists.fired) + old(lists.pending)
      ensures Comes(old(Snapshot()), |old(lists.timers)|, old(lists.pending), old(plans), Outcome(Snapshot(), plans, |lists.timers|))
    {
      ghost var end := Outcome(FireAll(Snapshot(), lists.pending, plans), PlansLeft(plans, |lists.pending|),
                               |lists.timers| + TimersOf(plans, |lists.pending|));
      lists.HeadIsNoMember();
      var ev := lists.pendingList.next;
      while ev != lists.pendingList
        invariant Valid() && PlansOk() && lists.OnlyAdds()
        invariant lists.fired + lists.pending == old(lists.fired) + old(lists.pending)
        invariant forall i :: 0 <= i < |lists.PendingRing()| ==> lists.PendingRing()[i] in old(lists.PendingRing())
        invariant ev == if lists.pending != [] then lists.pending[0] else lists.pendingList
        invariant Comes(Snapshot(), |lists.timers|, lists.pending, plans, end)
        decreases |lists.pending|
      {
        RingGrown();
        ComesNext(Snapshot(), |lists.timers|, lists.pending, plans, end);
        ev := FireOne(ev);
      }
      lists.HeadIsNoMember();
      ComesEnd(Snapshot(), |lists.timers|, lists.pending, plans, end);
      assert lists.fired + [] == lists.fired;
    }

    // The ready events join the pending list; they alone are newly on a list.
    method CollectLinks(rfds: set<int>, n: int)
      requires Valid() && watches.OffLists(lists, 0)
      modifies lists`pending, lists.PendingRing()`next, lists.PendingRing()`prev
      modifies watches, watches.table, watches.Members()`index, watches.Members()`next, watches.Members()`prev
      ensures Valid()
      ensures lists.pending == old(lists.pending) + old(watches.Ready(watches.table[..], MAX_FD_EVENTS, rfds, n))
      ensures watches.table[..] == old(watches.Collected(watches.table[..], MAX_FD_EVENTS, rfds, n))
      ensures forall i :: 0 <= i < |lists.PendingRing()| ==>
                lists.PendingRing()[i] in old(lists.PendingRing()) || lists.PendingRing()[i] in old(watches.Members())
      ensures Linked() == old(Linked()) + (set e | e in old(watches.Ready(watches.table[..], MAX_FD_EVENTS, rfds, n)) && e in named)
    {
      lists.MembersLinked();
      watches.CollectReady(lists, rfds, n);
      lists.MembersLinked();
      ghost var ready := old(watches.Ready(watches.table[..], MAX_FD_EVENTS, rfds, n));
      forall e | e in named ensures e.next != null <==> old(e.next) != null || e in ready {
        if e in old(lists.PendingRing()) {
          assert e == lists.pendingList || e in lists.pending;
          assert e in lists.PendingRing();
        } else if e in ready {
          assert e in lists.PendingRing();
        } else {
          assert e !in lists.pending;
        }
      }
    }

    // The same, of all that callbacks see.
    method CollectNow(rfds: set<int>, n: int)
      requires Valid() && watches.OffLists(lists, 0)
      modifies lists`pending, lists.PendingRing()`next, lists.PendingRing()`prev
      modifies watches, watches.table, watches.Members()`index, watches.Members()`next, watches.Members()`prev
      ensures Valid()
      ensures lists.pending == old(lists.pending) + old(watches.Ready(watches.table[..], MAX_FD_EVENTS, rfds, n))
      ensures forall i :: 0 <= i < |lists.PendingRing()| ==>
                lists.PendingRing()[i] in old(lists.PendingRing()) || lists.PendingRing()[i] in old(watches.Members())
      ensures Snapshot() == old(Collecting(rfds, n))
    {
      CollectLinks(rfds, n);
      watches.ReadSetIs();
      assert FdsOf(watches.table[..]) == old(FdsOf(watches.Collected(watches.table[..], MAX_FD_EVENTS, rfds, n)));
      assert Settings() == old(Settings());
    }

    /** The watches once the ready entries have been collected. */
    ghost function Collecting(rfds: set<int>, n: int): View
      requires watches.table.Length == MAX_FD_EVENTS
      reads watches, watches.table, watches.table[..], named
    {
      watches.CollectedFrom(watches.table[..], MAX_FD_EVENTS, rfds, n);
      var slots := watches.Collected(watches.table[..], MAX_FD_EVENTS, rfds, n);
      var ready := watches.Ready(watches.table[..], MAX_FD_EVENTS, rfds, n);
      View(slots, FdsOf(slots), Settings(), Linked() + (set e | e in ready && e in named))
    }

    // The ready events, and all callbacks.
    method CollectAndFire(rfds: set<int>, n: int)
      requires Valid() && PlansOk() && watches.OffLists(lists, 0)
      modifies this`plans, lists`clock, lists`timers, lists`pending, lists`fired
      modifies lists.TimerRing()`next, lists.TimerRing()`prev, lists.PendingRing()`next, lists.PendingRing()`prev
      modifies watches, watches.table, watches.Members()`index, watches.Members()`next, watches.Members()`prev, named
      ensures Valid() && PlansOk() && lists.pending == [] && lists.OnlyAdds()
      ensures var events := old(lists.pending) + old(watches.Ready(watches.table[..], MAX_FD_EVENTS, rfds, n));
              && lists.fired == old(lists.fired) + events
              && Comes(old(Collecting(rfds, n)), |old(lists.timers)|, events, old(plans), Outcome(Snapshot(), plans, |lists.timers|))
    {
      CollectNow(rfds, n);
      FirePending();
    }

    // No watched event is on a list while nothing is pending.
    lemma NothingPending()
      requires Valid() && lists.pending == []
      ensures watches.OffLists(lists, 0)
    {
      assert lists.PendingRing() == [lists.pendingList];
    }

    // Expired timers stay on a list, and what callbacks see stays as it is.
    method ExpireNow(ghost rfds: set<int>, ghost n: int) returns (now: Timeval)
      requires Valid() && lists.pending == []
      modifies lists`clock, lists`timers, lists`pending
      modifies lists.TimerRing()`next, lists.TimerRing()`prev, lists.PendingRing()`next, lists.PendingRing()`prev
      ensures Valid() && watches.OffLists(lists, 0)
      ensures now == lists.clock && now.Micros() >= old(lists.clock.Micros())
      ensures var k := Earlier(old(Deadlines(lists.timers)), now.Micros());
              lists.timers == old(lists.timers)[k..] && lists.pending == old(lists.timers)[..k]
      ensures watches.Ready(watches.table[..], MAX_FD_EVENTS, rfds, n) == old(watches.Ready(watches.table[..], MAX_FD_EVENTS, rfds, n))
      ensures Collecting(rfds, n) == old(Collecting(rfds, n))
      ensures watches.Members() == old(watches.Members())
      ensures forall i :: 0 <= i < |lists.TimerRing()| ==> lists.TimerRing()[i] in old(lists.TimerRing())
      ensures forall i :: 0 <= i < |lists.PendingRing()| ==>
                lists.PendingRing()[i] in old(lists.PendingRing()) || lists.PendingRing()[i] in old(lists.TimerRing())
    {
      NothingPending();
      lists.MembersLinked();
      now := watches.Expire(lists, rfds, n);
      assert Linked() == old(Linked());
    }

    twostate lemma KeptSince(now: Timeval)
      requires lists.OnlyAdds() && now == old(lists.clock)
      ensures lists.Keeps(old(lists.timers), now)
    {}

    /** What ril_event_loop does with one return of select: the callbacks called
        are those of the expired timers, in order of deadline, and behind them
        those of the ready descriptors, in slot order; each once, whatever the
        callbacks before it added or deleted.  The watches are what the callbacks
        make, one after another, of the table without the one-shot entries that
        were ready; the other timers stay, and new ones are due no earlier than
        now.  Then everything holds that the next turn needs. */
    method HandleSelect(rfds: set<int>, n: int) returns (now: Timeval)
      requires Valid() && PlansOk() && lists.pending == []
      modifies this`plans, lists`clock, lists`timers, lists`pending, lists`fired
      modifies lists.TimerRing()`next, lists.TimerRing()`prev, lists.PendingRing()`next, lists.PendingRing()`prev
      modifies watches, watches.table, watches.Members()`index, watches.Members()`next, watches.Members()`prev, named
      ensures Valid() && PlansOk() && lists.pending == [] && watches.OffLists(lists, 0)
      ensures var k := Earlier(old(Deadlines(lists.timers)), now.Micros());
              var events := old(lists.timers)[..k] + old(watches.Ready(watches.table[..], MAX_FD_EVENTS, rfds, n));
              && lists.fired == old(lists.fired) + events
              && Comes(old(Collecting(rfds, n)), |old(lists.timers)| - k, events, old(plans), Outcome(Snapshot(), plans, |lists.timers|))
              && lists.Keeps(old(lists.timers)[k..], now)
      ensures now.Micros() >= old(lists.clock.Micros())
    {
      now := ExpireNow(rfds, n);
      label expired:
      CollectAndFire(rfds, n);
      NothingPending();
      KeptSince@expired(now);
    }
  }
}
