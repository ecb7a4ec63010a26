/** The timer and pending lists of the event loop, in memory
    (libril/ril_event.cpp). */
module EventLoop {
  import opened Basics
  import opened Timers
  import opened EventList

  // The deadlines of a list of events.
  function Deadlines(evs: seq<Event>): (ds: seq<int>)
    reads evs
    ensures |ds| == |evs|
    ensures forall i :: 0 <= i < |evs| ==> ds[i] == evs[i].timeout.Micros()
  {
    seq(|evs|, i requires 0 <= i < |evs| reads evs => evs[i].timeout.Micros())
  }

  lemma DeadlinesInsert(evs: seq<Event>, k: nat, ev: Event)
    requires k <= |evs|
    ensures Deadlines(Insert(evs, k, ev)) == Insert(Deadlines(evs), k, ev.timeout.Micros())
  {
    InsertedAt(evs, k, ev);
  }

  ghost predicate AllNormal(evs: seq<Event>)
    reads evs
  {
    forall i :: 0 <= i < |evs| ==> evs[i].timeout.Normal()
  }

  // In order of deadline.
  ghost predicate InOrder(evs: seq<Event>)
    reads evs
  {
    AllNormal(evs) && Sorted(Deadlines(evs))
  }

  // Going in at the place found keeps the order.
  lemma InsertInOrder(evs: seq<Event>, ev: Event, k: nat)
    requires InOrder(evs) && ev.timeout.Normal()
    requires k == Earlier(Deadlines(evs), ev.timeout.Micros())
    ensures InOrder(Insert(evs, k, ev))
  {
    DeadlinesInsert(evs, k, ev);
    InsertKeepsSorted(Deadlines(evs), ev.timeout.Micros());
    InsertedAt(evs, k, ev);
  }

  // What is left after the expired ones is in order.
  lemma SuffixInOrder(evs: seq<Event>, k: nat, now: int)
    requires InOrder(evs) && k <= |evs|
    requires forall i :: 0 <= i < k ==> evs[i].timeout.Micros() < now
    requires k < |evs| ==> now <= evs[k].timeout.Micros()
    ensures k == Earlier(Deadlines(evs), now)
    ensures InOrder(evs[k..])
  {
    EarlierUnique(Deadlines(evs), now, k);
    assert Deadlines(evs[k..]) == Deadlines(evs)[k..];
  }

  lemma LessIsMicros(evs: seq<Event>, k: nat, now: Timeval)
    requires AllNormal(evs) && now.Normal() && k <= |evs|
    requires forall i :: 0 <= i < k ==> Less(evs[i].timeout, now)
    requires k < |evs| ==> !Less(evs[k].timeout, now)
    ensures forall i :: 0 <= i < k ==> evs[i].timeout.Micros() < now.Micros()
    ensures k < |evs| ==> now.Micros() <= evs[k].timeout.Micros()
  {
    forall i | 0 <= i < |evs| ensures Less(evs[i].timeout, now) <==> evs[i].timeout.Micros() < now.Micros() {
      MacrosMeanArithmetic(evs[i].timeout, now);
    }
  }

  // Only links changed.
  twostate lemma DeadlinesUntouched(evs: seq<Event>)
    requires forall e :: e in evs ==> e.timeout == old(e.timeout)
    ensures Deadlines(evs) == old(Deadlines(evs))
    ensures AllNormal(evs) == old(AllNormal(evs))
  {}

  // A ring none of whose links was touched.
  twostate lemma RingUntouched(nodes: seq<Event>)
    requires old(Ring(nodes))
    requires forall e :: e in nodes ==> e.next == old(e.next) && e.prev == old(e.prev)
    ensures Ring(nodes)
  {
    forall i | 0 <= i < |nodes| ensures LinkedAt(nodes, i) {
      assert old(LinkedAt(nodes, i));
    }
  }

  lemma ShiftInsert(h: Event, s: seq<Event>, k: nat, ev: Event)
    requires k <= |s|
    ensures Insert([h] + s, k + 1, ev) == [h] + Insert(s, k, ev)
  {}

  lemma ShiftRemoveFirst(h: Event, s: seq<Event>)
    requires s != []
    ensures Remove([h] + s, 1) == [h] + s[1..]
  {}

  class EventLists {
    const timerList: Event
    const pendingList: Event
    var clock: Timeval
    ghost var timers: seq<Event>    // the members of timer_list, in order
    ghost var pending: seq<Event>   // the members of pending_list, in order
    ghost var fired: seq<Event>     // the events whose callback has been called

    ghost function TimerRing(): (r: seq<Event>)
      reads this`timers
    {
      [timerList] + timers
    }

    ghost function PendingRing(): (r: seq<Event>)
      reads this`pending
    {
      [pendingList] + pending
    }

    /** Two well-formed circular lists with no node in common. */
    ghost predicate Shape()
      reads this`timers, this`pending
      reads timerList`next, timerList`prev, pendingList`next, pendingList`prev
      reads timers`next, timers`prev, pending`next, pending`prev
    {
      && Ring(TimerRing()) && Ring(PendingRing())
      && forall e :: e in TimerRing() ==> e !in PendingRing()
    }

    /** The timer list is in order of deadline. */
    ghost predicate Ordered()
      reads this`clock, this`timers, timers
    {
      clock.Normal() && InOrder(timers)
    }

    ghost predicate Valid()
      reads this, timerList, pendingList, timers, pending
    {
      Shape() && Ordered()
    }

    /** ril_event_init */
    constructor ()
      ensures Valid() && timers == [] && pending == [] && fired == []
      ensures fresh(timerList) && fresh(pendingList)
    {
      timerList := new Event(-1, false);
      pendingList := new Event(-1, false);
      clock := Timeval(0, 0);
      timers, pending, fired := [], [], [];
      new;
      InitList(timerList);
      InitList(pendingList);
      assert TimerRing() == [timerList] && PendingRing() == [pendingList];
    }

    /** getNow: a monotonic clock */
    method GetNow() returns (now: Timeval)
      requires clock.Normal()
      modifies this`clock
      ensures now == clock && clock.Normal() && clock.Micros() >= old(clock.Micros())
    {
      var sec: nat :| sec >= 0;
      var usec: nat :| usec < MICROS;
      MacrosMeanArithmetic(clock, Timeval(sec, usec));
      clock := Timers.TimerAdd(clock, Timeval(sec, usec));
      now := clock;
    }

    // The member the walk stands at after k steps: the head at the end.
    ghost function Member(k: nat): Event
      reads this`timers
    {
      if k < |timers| then timers[k] else timerList
    }

    lemma NextMember(k: nat)
      requires Ring(TimerRing()) && k < |timers|
      ensures timers[k].next == Member(k + 1)
      ensures timers[k] != timerList
    {
      assert LinkedAt(TimerRing(), k + 1) && TimerRing()[k + 1] == timers[k];
      assert TimerRing()[0] == timerList;
    }

    lemma FirstMember()
      requires Ring(TimerRing())
      ensures timerList.next == Member(0)
    {
      assert LinkedAt(TimerRing(), 0);
    }

    // The walk that keeps the list sorted.
    method FindPlace(deadline: Timeval) returns (list: Event, ghost k: nat)
      requires Ring(TimerRing()) && Ordered() && deadline.Normal()
      ensures k == Earlier(Deadlines(timers), deadline.Micros())
      ensures list == Member(k)
    {
      FirstMember();
      list := timerList.next;
      k := 0;
      while Less(list.timeout, deadline) && list != timerList
        invariant 0 <= k <= |timers| && list == Member(k)
        invariant forall i :: 0 <= i < k ==> timers[i].timeout.Micros() < deadline.Micros()
        decreases |timers| - k
      {
        NextMember(k);
        MacrosMeanArithmetic(list.timeout, deadline);
        list := list.next;
        k := k + 1;
      }
      if k < |timers| {
        NextMember(k);
        MacrosMeanArithmetic(list.timeout, deadline);
      }
      EarlierUnique(Deadlines(timers), deadline.Micros(), k);
    }

    // A new event goes in at the place found for it.
    method LinkAt(ev: Event, list: Event, ghost k: nat)
      requires Shape() && k <= |timers| && list == Member(k)
      requires ev !in TimerRing() && ev !in PendingRing()
      modifies this`timers, ev`next, ev`prev, TimerRing()`next, TimerRing()`prev
      ensures Shape() && timers == Insert(old(timers), k, ev)
    {
      ghost var ring := TimerRing();
      assert list == if k + 1 < |ring| then ring[k + 1] else ring[0];
      AddToList(ev, list, ring, k + 1);
      ShiftInsert(timerList, timers, k, ev);
      timers := Insert(timers, k, ev);
      RingUntouched(PendingRing());
      InsertedAt(ring, k + 1, ev);
    }

    // A new event, its deadline set, goes into the list.
    method LinkIn(ev: Event)
      requires Shape() && Ordered() && ev.timeout.Normal()
      requires ev !in TimerRing() && ev !in PendingRing()
      modifies this`timers, ev`next, ev`prev, TimerRing()`next, TimerRing()`prev
      ensures Shape()
      ensures timers == Insert(old(timers), Earlier(old(Deadlines(timers)), ev.timeout.Micros()), ev)
      ensures forall e :: e in timers <==> e in old(timers) || e == ev
    {
      var list;
      ghost var k;
      list, k := FindPlace(ev.timeout);
      LinkAt(ev, list, k);
      InsertedAt(old(timers), k, ev);
    }

    /** ril_timer_add: a new event goes in before the first one not earlier than
        it; without a delay nothing happens. */
    method TimerAdd(ev: Event, tv: Option<Timeval>)
      requires Valid() && (tv.Some? ==> tv.value.Normal())
      requires tv.Some? ==> ev !in TimerRing() && ev !in PendingRing()
      modifies this`clock, this`timers, ev, TimerRing()`next, TimerRing()`prev
      ensures Valid() && clock.Micros() >= old(clock.Micros())
      ensures tv.None? ==> timers == old(timers) && unchanged(ev)
      ensures tv.Some? ==> (
        && ev.timeout.Micros() == clock.Micros() + tv.value.Micros() >= old(clock.Micros())
        && timers == Insert(old(timers), Earlier(old(Deadlines(timers)), ev.timeout.Micros()), ev)
        && forall e :: e in timers <==> e in old(timers) || e == ev)
    {
      if tv.Some? {
        AddTimer(ev, tv.value);
      }
    }

    // the deadline of an event that is not yet on the list
    method Date(ev: Event, tv: Timeval)
      requires Valid() && tv.Normal() && ev !in TimerRing() && ev !in PendingRing()
      modifies this`clock, ev`fd, ev`timeout
      ensures Valid() && ev.timeout.Normal() && Deadlines(timers) == old(Deadlines(timers))
      ensures ev.timeout.Micros() == clock.Micros() + tv.Micros() && clock.Micros() >= old(clock.Micros())
    {
      ev.fd := -1;
      var now := GetNow();
      MacrosMeanArithmetic(now, tv);
      ev.timeout := Timers.TimerAdd(now, tv);
      DeadlinesUntouched(timers);
    }

    // the same, with a delay
    method AddTimer(ev: Event, tv: Timeval)
      requires Valid() && tv.Normal()
      requires ev !in TimerRing() && ev !in PendingRing()
      modifies this`clock, this`timers, ev, TimerRing()`next, TimerRing()`prev
      ensures Valid()
      ensures ev.timeout.Micros() == clock.Micros() + tv.Micros() && clock.Micros() >= old(clock.Micros())
      ensures timers == Insert(old(timers), Earlier(old(Deadlines(timers)), ev.timeout.Micros()), ev)
      ensures forall e :: e in timers <==> e in old(timers) || e == ev
      ensures ev.timeout.Micros() >= old(clock.Micros())
    {
      Date(ev, tv);
      label dated:
      InsertInOrder(timers, ev, Earlier(Deadlines(timers), ev.timeout.Micros()));
      LinkIn(ev);
      DeadlinesUntouched@dated(timers);
    }

    // The first timer is taken off its list.
    method TakeFirst(tev: Event)
      requires Shape() && timers != [] && tev == timers[0]
      modifies this`timers, TimerRing()`next, TimerRing()`prev
      ensures Shape() && timers == old(timers)[1..]
      ensures tev !in TimerRing() && tev !in PendingRing()
    {
      ghost var ring := TimerRing();
      assert ring[1] == tev && forall i :: 0 <= i < |ring| && i != 1 ==> ring[i] != tev;
      RemoveFromList(tev, ring, 1);
      ShiftRemoveFirst(timerList, timers);
      RemovedAt(ring, 1);
      timers := timers[1..];
      RingUntouched(PendingRing());
    }

    // An event joins the end of the pending list.
    method Append(ev: Event)
      requires Shape() && ev !in TimerRing() && ev !in PendingRing()
      modifies this`pending, ev`next, ev`prev, PendingRing()`next, PendingRing()`prev
      ensures Shape() && pending == old(pending) + [ev]
    {
      ghost var ring := PendingRing();
      AddToList(ev, pendingList, ring, |ring|);
      pending := pending + [ev];
      assert PendingRing() == Insert(ring, |ring|, ev);
      RingUntouched(TimerRing());
    }

    // One expired timer moves from list to list; the walk goes on to the next.
    method MoveFirst(tev: Event) returns (next: Event)
      requires Shape() && timers != [] && tev == timers[0]
      modifies this`timers, this`pending
      modifies TimerRing()`next, TimerRing()`prev, PendingRing()`next, PendingRing()`prev
      ensures Shape()
      ensures timers == old(timers)[1..] && pending == old(pending) + [tev]
      ensures next == Member(0)
      ensures forall e :: e in TimerRing() ==> e in old(TimerRing())
      ensures forall e :: e in PendingRing() ==> e in old(PendingRing()) || e in old(TimerRing())
    {
      NextMember(0);
      next := tev.next;
      assert TimerRing()[1] == tev;
      TakeFirst(tev);
      Append(tev);
    }

    lemma MovedOn(waiting: seq<Event>, all: seq<Event>, k: nat)
      requires k < |all|
      ensures all[k..] == [all[k]] + all[k + 1..] && all[k..][1..] == all[k + 1..]
      ensures waiting + all[..k] + [all[k]] == waiting + all[..k + 1]
    {}

    // The walk over the expired timers.
    method MoveExpired(now: Timeval) returns (ghost k: nat)
      requires Shape()
      modifies this`timers, this`pending
      modifies TimerRing()`next, TimerRing()`prev, PendingRing()`next, PendingRing()`prev
      ensures Shape()
      ensures k <= |old(timers)|
      ensures timers == old(timers)[k..] && pending == old(pending) + old(timers)[..k]
      ensures forall i :: 0 <= i < k ==> Less(old(timers)[i].timeout, now)
      ensures k < |old(timers)| ==> !Less(old(timers)[k].timeout, now)
    {
      FirstMember();
      var tev := timerList.next;
      k := 0;
      ghost var all, waiting := timers, pending;
      while tev != timerList && Less(tev.timeout, now)
        invariant Shape()
        invariant 0 <= k <= |all| && tev == Member(0)
        invariant timers == all[k..] && pending == waiting + all[..k]
        invariant forall e :: e in TimerRing() ==> e in old(TimerRing())
        invariant forall e :: e in PendingRing() ==> e in old(PendingRing()) || e in old(TimerRing())
        invariant forall i :: 0 <= i < k ==> Less(all[i].timeout, now)
        decreases |all| - k
      {
        assert timers != [];
        assert forall i :: 0 <= i < |TimerRing()| ==> TimerRing()[i] in old(TimerRing());
        assert forall i :: 0 <= i < |PendingRing()| ==> PendingRing()[i] in old(PendingRing()) || PendingRing()[i] in old(TimerRing());
        MovedOn(waiting, all, k);
        tev := MoveFirst(tev);
        k := k + 1;
      }
      if k < |all| { NextMember(0); }
    }

    /** processTimeouts: exactly the timers whose deadline has passed go to the
        end of the pending list, in order; the others stay. */
    method ProcessTimeouts() returns (now: Timeval)
      requires Valid()
      modifies this`clock, this`timers, this`pending
      modifies TimerRing()`next, TimerRing()`prev, PendingRing()`next, PendingRing()`prev
      ensures Valid() && now == clock && clock.Micros() >= old(clock.Micros())
      ensures var k := Earlier(old(Deadlines(timers)), now.Micros());
              && timers == old(timers)[k..]
              && pending == old(pending) + old(timers)[..k]
    {
      now := GetNow();
      ghost var all := timers;
      ghost var k := MoveExpired(now);
      DeadlinesUntouched(all);
      LessIsMicros(all, k, now);
      SuffixInOrder(all, k, now.Micros());
    }
 
    /** What callbacks may do to the timers: the old ones stay, with their
        deadlines, and new ones are due no earlier than the time they were
        added. */
    twostate predicate OnlyAdds()
      reads this, timers
    {
      && (forall e :: e in old(timers) ==> e in timers && e.timeout == old(e.timeout))
      && (forall e :: e in timers && e !in old(timers) ==> fresh(e) && e.timeout.Micros() >= old(clock.Micros()))
      && clock.Micros() >= old(clock.Micros())
    }

    /** These timers are listed still, with their deadlines, and besides them only
        new ones, due no earlier than `since`. */
    twostate predicate Keeps(kept: seq<Event>, since: Timeval)
      reads this, timers, kept
    {
      && (forall e :: e in kept ==> e in timers && e.timeout == old(e.timeout))
      && (forall e :: e in timers && e !in kept ==> fresh(e) && e.timeout.Micros() >= since.Micros())
    }

    // internalRequestTimedCallback on the loop's own thread
    method RequestTimed(delay: Timeval) returns (ghost added: Event)
      requires Valid() && delay.Normal()
      modifies this`clock, this`timers, TimerRing()`next, TimerRing()`prev
      ensures Valid() && OnlyAdds()
      ensures fresh(added) && added.timeout.Micros() == clock.Micros() + delay.Micros()
      ensures timers == Insert(old(timers), Earlier(old(Deadlines(timers)), added.timeout.Micros()), added)
      ensures forall i :: 0 <= i < |TimerRing()| ==> TimerRing()[i] in old(TimerRing()) || fresh(TimerRing()[i])
    {
      var ev := new Event(-1, false);
      TimerAdd(ev, Some(delay));
      added := ev;
    }

    // The first pending event leaves its list.
    method TakePending(ev: Event) returns (next: Event)
      requires Shape() && pending != [] && ev == pending[0]
      modifies this`pending, PendingRing()`next, PendingRing()`prev
      ensures Shape() && pending == old(pending)[1..] && ev.next == null
      ensures next == if pending != [] then pending[0] else pendingList
    {
      ghost var ring := PendingRing();
      assert LinkedAt(ring, 1) && ring[1] == ev;
      next := ev.next;
      RemoveFromList(ev, ring, 1);
      ShiftRemoveFirst(pendingList, pending);
      RemovedAt(ring, 1);
      pending := pending[1..];
      RingUntouched(TimerRing());
    }

    // ev->func is called
    method NoteFired(ev: Event)
      modifies this`fired
      ensures fired == old(fired) + [ev]
    {
      fired := fired + [ev];
    }

    lemma HeadIsNoMember()
      requires Ring(PendingRing())
      ensures pending != [] ==> pending[0] != pendingList
      ensures pendingList.next == if pending != [] then pending[0] else pendingList
    {
      assert LinkedAt(PendingRing(), 0);
      if pending != [] { assert PendingRing()[1] == pending[0] && PendingRing()[0] == pendingList; }
    }

    // An event on a list has links.
    lemma MembersLinked()
      requires Shape()
      ensures forall i :: 0 <= i < |TimerRing()| ==> TimerRing()[i].next != null
      ensures forall i :: 0 <= i < |PendingRing()| ==> PendingRing()[i].next != null
    {
      forall i | 0 <= i < |TimerRing()| ensures TimerRing()[i].next != null { assert LinkedAt(TimerRing(), i); }
      forall i | 0 <= i < |PendingRing()| ensures PendingRing()[i].next != null { assert LinkedAt(PendingRing(), i); }
    }

    // An event without links is on no list.
    lemma Unlinked(e: Event)
      requires Shape() && e.next == null
      ensures e !in TimerRing() && e !in PendingRing()
    {
      MembersLinked();
    }

    /** calcNextTimeout: -1 (None) without timers; otherwise how long until the
        first one, zero when it is already due. */
    method CalcNextTimeout() returns (tv: Option<Timeval>, now: Timeval)
      requires Valid()
      modifies this`clock
      ensures Valid() && now == clock && clock.Micros() >= old(clock.Micros())
      ensures tv.None? <==> timers == []
      ensures tv.Some? ==> tv.value.Normal() && tv.value.Micros() == Max(0, timers[0].timeout.Micros() - now.Micros())
    {
      FirstMember();
      var tev := timerList.next;
      now := GetNow();
      if tev == timerList {
        if timers != [] { NextMember(0); }
        return None, now;
      }
      assert timers != [];
      MacrosMeanArithmetic(tev.timeout, now);
      if Less(now, tev.timeout) {
        tv := Some(TimerSub(tev.timeout, now));
      } else {
        tv := Some(Timeval(0, 0));
      }
    }
  }
}
