/** The table of watched descriptors (ril_event_add, ril_event_del, removeWatch
    and processReadReadies in libril/ril_event.cpp). */
module WatchTable {
  import opened Basics
  import opened Timers
  import opened EventList
  import opened EventLoop

  const MAX_FD_EVENTS: nat := 8

  // One more than the largest of the descriptors.
  predicate NfdsFor(fds: set<int>, nfds: int) {
    && (forall fd :: fd in fds ==> fd < nfds)
    && (fds != {} ==> nfds - 1 in fds)
    && (fds == {} ==> 0 <= nfds <= 1)
  }

  lemma NfdsWith(fds: set<int>, nfds: int, fd: int)
    requires NfdsFor(fds, nfds) && fd >= 0
    ensures NfdsFor(fds + {fd}, if fd >= nfds then fd + 1 else nfds)
  {}

  lemma NfdsWithout(fds: set<int>, nfds: int, fd: int)
    requires NfdsFor(fds, nfds) && fd in fds && fd + 1 != nfds
    ensures NfdsFor(fds - {fd}, nfds)
  {
    assert nfds - 1 in fds - {fd};
  }

  lemma NfdsAfter(fds: set<int>, n: int)
    requires n >= 0 && (n == 0 || n in fds) && forall fd :: fd in fds ==> 0 <= fd <= n
    ensures NfdsFor(fds, n + 1)
  {
    if n !in fds {
      assert forall fd :: fd in fds ==> fd == 0;
    }
  }

  // The first free slot, or the size of a full table.
  ghost function FirstFree(slots: seq<Event?>): (i: nat)
    ensures i <= |slots|
    ensures forall j :: 0 <= j < i ==> slots[j] != null
    ensures i < |slots| ==> slots[i] == null
  {
    if slots == [] || slots[0] == null then 0 else 1 + FirstFree(slots[1..])
  }

  // The slots without the event.
  ghost function Cleared(slots: seq<Event?>, ev: Event): (r: seq<Event?>)
    ensures |r| == |slots|
    ensures forall i :: 0 <= i < |slots| ==> r[i] == if slots[i] == ev then null else slots[i]
  {
    seq(|slots|, i requires 0 <= i < |slots| => if slots[i] == ev then null else slots[i])
  }

  // The descriptors of these entries.
  ghost function FdsOf(slots: seq<Event?>): set<int>
    reads slots`fd
  {
    set i | 0 <= i < |slots| && slots[i] != null :: slots[i].fd
  }

  twostate lemma FdsUntouched(slots: seq<Event?>)
    requires forall i :: 0 <= i < |slots| && slots[i] != null ==> slots[i].fd == old(slots[i].fd)
    ensures FdsOf(slots) == old(FdsOf(slots))
  {}

  class Watches {
    const table: array<Event?>
    var readFds: set<int>
    var nfds: int
    ghost var slotOf: map<int, nat>  // the slot of each watched descriptor

    // Slot i, if taken, holds an event that knows its slot and is its
    // descriptor's only one.
    ghost predicate SlotOk(i: nat)
      requires i < table.Length
      reads this`slotOf, table, table[..]
    {
      table[i] != null ==>
        table[i].fd >= 0 && table[i].index == i && table[i].fd in slotOf && slotOf[table[i].fd] == i
    }

    ghost predicate FdOk(fd: int)
      requires fd in slotOf
      reads this`slotOf, table, table[..]
    {
      slotOf[fd] < table.Length && table[slotOf[fd]] != null && table[slotOf[fd]].fd == fd
    }

    /** Each entry knows its slot, no two share a descriptor, and the read set
        is exactly the descriptors in the table. */
    ghost predicate TableOk()
      reads this`readFds, this`slotOf, table, table[..]
    {
      && table.Length == MAX_FD_EVENTS
      && (forall i :: 0 <= i < MAX_FD_EVENTS ==> SlotOk(i))
      && (forall fd :: fd in slotOf ==> FdOk(fd))
      && readFds == slotOf.Keys
    }

    /** nfds is one more than the largest descriptor watched, if there is one. */
    ghost predicate NfdsOk()
      reads this`readFds, this`nfds
    {
      NfdsFor(readFds, nfds)
    }

    ghost predicate Valid()
      reads this, table, table[..]
    {
      TableOk() && NfdsOk()
    }

    lemma ReadSetIs()
      requires TableOk()
      ensures readFds == FdsOf(table[..])
    {
      forall fd | fd in readFds ensures fd in FdsOf(table[..]) {
        assert FdOk(fd) && table[..][slotOf[fd]] == table[slotOf[fd]];
      }
      forall fd | fd in FdsOf(table[..]) ensures fd in readFds {
        var i :| 0 <= i < |table[..]| && table[..][i] != null && table[..][i].fd == fd;
        assert SlotOk(i);
      }
    }

    constructor ()
      ensures Valid() && readFds == {} && fresh(table)
      ensures forall i :: 0 <= i < table.Length ==> table[i] == null
    {
      table := new Event?[MAX_FD_EVENTS](_ => null);
      readFds := {};
      slotOf := map[];
      nfds := 0;
    }

    // The largest descriptor in the table, at least 0.
    method LargestFd() returns (n: int)
      requires TableOk()
      ensures n >= 0 && (n == 0 || n in readFds)
      ensures forall fd :: fd in readFds ==> fd <= n
    {
      n := 0;
      for i := 0 to MAX_FD_EVENTS
        invariant n >= 0 && (n == 0 || n in readFds)
        invariant forall fd :: fd in slotOf && slotOf[fd] < i ==> fd <= n
      {
        assert SlotOk(i);
        var rev := table[i];
        if rev != null && rev.fd > n {
          n := rev.fd;
        }
        forall fd | fd in slotOf && slotOf[fd] < i + 1 ensures fd <= n {
          assert FdOk(fd);
        }
      }
      forall fd | fd in readFds ensures fd <= n { assert FdOk(fd); }
    }

    // The entry at index goes, and its descriptor with it.
    method ClearSlot(ev: Event, index: nat)
      requires TableOk() && index < MAX_FD_EVENTS && table[index] == ev
      modifies this`readFds, this`slotOf, table, ev`index
      ensures TableOk() && ev.index == -1
      ensures table[..] == old(table[..])[index := null]
      ensures readFds == old(readFds) - {ev.fd} && ev.fd in old(readFds)
    {
      assert SlotOk(index);
      table[index] := null;
      ev.index := -1;
      readFds := readFds - {ev.fd};
      slotOf := slotOf - {ev.fd};
      forall i | 0 <= i < MAX_FD_EVENTS ensures SlotOk(i) { assert old(SlotOk(i)); }
      forall fd | fd in slotOf ensures FdOk(fd) { assert old(FdOk(fd)); }
    }

    /** removeWatch */
    method RemoveWatch(ev: Event, index: nat)
      requires Valid() && index < MAX_FD_EVENTS && table[index] == ev
      modifies this, table, ev`index
      ensures Valid() && ev.index == -1
      ensures table[..] == old(table[..])[index := null]
      ensures readFds == old(readFds) - {ev.fd}
    {
      ClearSlot(ev, index);
      if ev.fd + 1 == nfds {
        var n := LargestFd();
        FdsAreNatural();
        NfdsAfter(readFds, n);
        nfds := n + 1;
      } else {
        NfdsWithout(old(readFds), nfds, ev.fd);
      }
    }

    lemma FdsAreNatural()
      requires TableOk()
      ensures forall fd :: fd in readFds ==> fd >= 0
    {
      forall fd | fd in readFds ensures fd >= 0 {
        assert FdOk(fd);
        assert SlotOk(slotOf[fd]);
      }
    }

    // An event and its descriptor go into a free slot.
    method PutIn(ev: Event, i: nat)
      requires TableOk() && ev.fd >= 0 && ev.fd !in readFds
      requires i < MAX_FD_EVENTS && table[i] == null
      modifies this`readFds, this`slotOf, table, ev`index
      ensures TableOk() && ev.index == i
      ensures table[..] == old(table[..])[i := ev] && readFds == old(readFds) + {ev.fd}
    {
      forall j | 0 <= j < MAX_FD_EVENTS ensures table[j] != ev { assert SlotOk(j); }
      table[i] := ev;
      ev.index := i;
      readFds := readFds + {ev.fd};
      slotOf := slotOf[ev.fd := i];
      forall j | 0 <= j < MAX_FD_EVENTS ensures SlotOk(j) { assert old(SlotOk(j)); }
      forall fd | fd in slotOf ensures FdOk(fd) { assert fd != ev.fd ==> old(FdOk(fd)); }
    }

    // A free slot is taken.
    method FillSlot(ev: Event, i: nat)
      requires Valid() && ev.fd >= 0 && ev.fd !in readFds
      requires i < MAX_FD_EVENTS && table[i] == null
      modifies this, table, ev`index
      ensures Valid() && ev.index == i
      ensures table[..] == old(table[..])[i := ev] && readFds == old(readFds) + {ev.fd}
    {
      PutIn(ev, i);
      RaiseNfds(ev.fd, old(readFds));
    }

    method RaiseNfds(fd: int, ghost others: set<int>)
      requires NfdsFor(others, nfds) && fd >= 0 && readFds == others + {fd}
      modifies this`nfds
      ensures NfdsOk()
    {
      NfdsWith(others, nfds, fd);
      if fd >= nfds {
        nfds := fd + 1;
      }
    }

    /** ril_event_add: into the first free slot; a full table is left alone. */
    method Add(ev: Event)
      requires Valid()
      requires ev.fd >= 0 && ev.fd !in readFds
      modifies this, table, ev`index
      ensures Valid()
      ensures var i := FirstFree(old(table[..]));
              if i < MAX_FD_EVENTS
              then ev.index == i && table[..] == old(table[..])[i := ev] && readFds == old(readFds) + {ev.fd}
              else ev.index == old(ev.index) && table[..] == old(table[..]) && readFds == old(readFds)
    {
      ghost var slots := table[..];
      for i := 0 to MAX_FD_EVENTS
        invariant Valid() && table[..] == slots && readFds == old(readFds) && ev.index == old(ev.index)
        invariant forall j :: 0 <= j < i ==> slots[j] != null
      {
        if table[i] == null {
          assert slots[i] == null;
          FillSlot(ev, i);
          return;
        }
        assert slots[i] != null;
      }
    }

    /** ril_event_del: an event that is not in the table is left alone. */
    method Del(ev: Event)
      requires Valid() && (0 <= ev.index < MAX_FD_EVENTS ==> table[ev.index] == ev)
      modifies this, table, ev`index
      ensures Valid()
      ensures if 0 <= old(ev.index) < MAX_FD_EVENTS
              then ev.index == -1 && table[..] == old(table[..])[old(ev.index) := null] && readFds == old(readFds) - {ev.fd}
              else ev.index == old(ev.index) && table[..] == old(table[..]) && readFds == old(readFds)
    {
      if ev.index < 0 || ev.index >= MAX_FD_EVENTS {
        return;
      }
      RemoveWatch(ev, ev.index);
    }
 
    // The watched events that select reported, in slot order, at most n of them.
    ghost function Ready(slots: seq<Event?>, i: nat, rfds: set<int>, n: int): (r: seq<Event>)
      requires i <= |slots|
      reads slots
      ensures n >= 0 ==> |r| <= n
    {
      if i == 0 then []
      else
        var before := Ready(slots, i - 1, rfds, n);
        if |before| < n && slots[i - 1] != null && slots[i - 1].fd in rfds then before + [slots[i - 1]] else before
    }

    // No event from slot i on is on a list.
    ghost predicate OffLists(lists: EventLists, i: nat)
      reads this, table, lists`timers, lists`pending
    {
      forall j :: i <= j < table.Length && table[j] != null ==> table[j] !in lists.TimerRing() && table[j] !in lists.PendingRing()
    }

    // Only list links changed.
    twostate lemma TableUntouched()
      requires old(Valid()) && readFds == old(readFds) && nfds == old(nfds) && slotOf == old(slotOf)
      requires table[..] == old(table[..])
      requires forall i :: 0 <= i < table.Length && table[i] != null ==> table[i].fd == old(table[i].fd) && table[i].index == old(table[i].index)
      ensures Valid()
    {
      forall i | 0 <= i < MAX_FD_EVENTS ensures SlotOk(i) {
        assert old(SlotOk(i)) && table[..][i] == old(table[..])[i];
      }
      forall fd | fd in slotOf ensures FdOk(fd) {
        assert old(FdOk(fd)) && table[..][slotOf[fd]] == old(table[..])[slotOf[fd]];
      }
    }

    // One ready entry joins the pending list, and a one-shot entry is removed.
    method Collect(lists: EventLists, rev: Event, i: nat)
      requires Valid() && lists.Shape() && i < MAX_FD_EVENTS && table[i] == rev
      requires OffLists(lists, i)
      modifies this, table, rev`index, rev`next, rev`prev
      modifies lists`pending, lists.PendingRing()`next, lists.PendingRing()`prev
      ensures Valid() && lists.Shape() && lists.pending == old(lists.pending) + [rev]
      ensures table[..] == old(table[..])[i := if rev.persist then rev else null]
      ensures readFds == if rev.persist then old(readFds) else old(readFds) - {rev.fd}
      ensures OffLists(lists, i + 1)
      ensures forall e :: e in lists.PendingRing() ==> e in old(lists.PendingRing()) || e == rev
    {
      OthersDiffer(i);
      lists.Append(rev);
      TableUntouched();
      if rev.persist == false {
        RemoveWatch(rev, i);
      }
    }
 
    // What the table holds once the ready entries before slot i were collected.
    ghost function Collected(slots: seq<Event?>, i: nat, rfds: set<int>, n: int): (r: seq<Event?>)
      requires i <= |slots|
      reads slots
      ensures |r| == |slots| && r[i..] == slots[i..]
    {
      if i == 0 then slots
      else
        var before := Collected(slots, i - 1, rfds, n);
        if |Ready(slots, i - 1, rfds, n)| < n && slots[i - 1] != null && slots[i - 1].fd in rfds && !slots[i - 1].persist
        then before[i - 1 := null] else before
    }

    // Nothing more is collected once n have been.
    lemma {:induction false} BudgetSpent(slots: seq<Event?>, i: nat, m: nat, rfds: set<int>, n: int)
      requires i <= m <= |slots| && |Ready(slots, i, rfds, n)| >= n
      ensures Ready(slots, m, rfds, n) == Ready(slots, i, rfds, n)
      ensures Collected(slots, m, rfds, n) == Collected(slots, i, rfds, n)
      decreases m - i
    {
      if i < m { BudgetSpent(slots, i, m - 1, rfds, n); }
    }

    lemma BudgetsSpent(slots: seq<Event?>, rfds: set<int>, n: int)
      ensures forall k :: 0 <= k <= |slots| && |Ready(slots, k, rfds, n)| >= n ==>
                && Ready(slots, |slots|, rfds, n) == Ready(slots, k, rfds, n)
                && Collected(slots, |slots|, rfds, n) == Collected(slots, k, rfds, n)
    {
      forall k | 0 <= k <= |slots| && |Ready(slots, k, rfds, n)| >= n
        ensures Ready(slots, |slots|, rfds, n) == Ready(slots, k, rfds, n)
        ensures Collected(slots, |slots|, rfds, n) == Collected(slots, k, rfds, n)
      {
        BudgetSpent(slots, k, |slots|, rfds, n);
      }
    }

    // Entry j is one that select reported.
    ghost predicate Reports(slots: seq<Event?>, j: nat, rfds: set<int>)
      requires j < |slots|
      reads slots
    {
      slots[j] != null && slots[j].fd in rfds
    }

    // The slots whose entries are collected before slot i.
    ghost function Chosen(slots: seq<Event?>, i: nat, rfds: set<int>, n: nat): (at: seq<nat>)
      requires i <= |slots|
      reads slots
      ensures |at| <= n && forall k :: 0 <= k < |at| ==> at[k] < i
    {
      if i == 0 then []
      else
        var at := Chosen(slots, i - 1, rfds, n);
        if |at| < n && Reports(slots, i - 1, rfds) then at + [i - 1] else at
    }

    /** What is collected are entries that select reported, in ascending order of
        their slots. */
    lemma {:induction false} ReadyAscends(slots: seq<Event?>, i: nat, rfds: set<int>, n: nat)
      requires i <= |slots|
      ensures var at := Chosen(slots, i, rfds, n);
              && |Ready(slots, i, rfds, n)| == |at|
              && (forall k :: 0 <= k < |at| ==> Reports(slots, at[k], rfds) && Ready(slots, i, rfds, n)[k] == slots[at[k]])
              && forall k, l :: 0 <= k < l < |at| ==> at[k] < at[l]
    {
      if i > 0 { ReadyAscends(slots, i - 1, rfds, n); }
    }

    /** One is left out only when n have been taken, all of slots before it. */
    lemma {:induction false} ReadyLeavesOut(slots: seq<Event?>, i: nat, rfds: set<int>, n: nat, j: nat)
      requires j < i <= |slots| && Reports(slots, j, rfds)
      ensures var at := Chosen(slots, i, rfds, n);
              j in at || (|at| == n && forall k :: 0 <= k < n ==> at[k] < j)
    {
      var before := Chosen(slots, i - 1, rfds, n);
      if j < i - 1 {
        ReadyLeavesOut(slots, i - 1, rfds, n, j);
        assert j in before ==> j in Chosen(slots, i, rfds, n);
      } else if |before| < n {
        assert (before + [j])[|before|] == j;
      }
    }

    /** Of the table exactly the one-shot entries among them are cleared. */
    lemma {:induction false} CollectedClears(slots: seq<Event?>, i: nat, rfds: set<int>, n: nat, j: nat)
      requires i <= |slots| && j < |slots|
      ensures Collected(slots, i, rfds, n)[j]
              == if j in Chosen(slots, i, rfds, n) && slots[j] != null && !slots[j].persist then null else slots[j]
    {
      if i > 0 {
        CollectedClears(slots, i - 1, rfds, n, j);
        ReadyAscends(slots, i - 1, rfds, n);
        var before := Chosen(slots, i - 1, rfds, n);
        if j == i - 1 {
          assert j !in before && (before + [j])[|before|] == j;
        } else {
          assert j in before + [i - 1] <==> j in before;
        }
      }
    }

    // The events of the table.
    ghost function Members(): set<Event>
      reads table
    {
      set i | 0 <= i < table.Length && table[i] != null :: table[i]
    }

    lemma OthersDiffer(i: nat)
      requires TableOk() && i < MAX_FD_EVENTS && table[i] != null
      ensures forall j :: 0 <= j < MAX_FD_EVENTS && j != i ==> table[j] != table[i]
    {
      forall j | 0 <= j < MAX_FD_EVENTS && j != i ensures table[j] != table[i] {
        assert SlotOk(i) && SlotOk(j);
      }
    }

    // The event of a slot, if there is one.
    ghost function EventAt(i: nat): set<Event>
      requires i < table.Length
      reads table
    {
      if table[i] == null then {} else {table[i]}
    }

    // One turn of the walk over the table.
    method ReadyTurn(lists: EventLists, rfds: set<int>, i: nat) returns (found: bool)
      requires Valid() && lists.Shape() && i < MAX_FD_EVENTS && OffLists(lists, i)
      modifies this, table, EventAt(i)`index, EventAt(i)`next, EventAt(i)`prev
      modifies lists`pending, lists.PendingRing()`next, lists.PendingRing()`prev
      ensures Valid() && lists.Shape() && OffLists(lists, i + 1)
      ensures found <==> old(table[i] != null && table[i].fd in rfds)
      ensures found ==> (
        && lists.pending == old(lists.pending) + [old(table[i])]
        && table[..] == old(table[..])[i := if old(table[i].persist) then old(table[i]) else null])
      ensures !found ==> lists.pending == old(lists.pending) && table[..] == old(table[..])
      ensures !found ==> forall e :: e in old(EventAt(i)) ==> e.next == old(e.next)
      ensures forall e :: e in lists.PendingRing() ==> e in old(lists.PendingRing()) || e in old(EventAt(i))
    {
      var rev := table[i];
      found := rev != null && rev.fd in rfds;
      if found {
        Collect(lists, rev, i);
      }
    }

    /** processReadReadies: the ready entries join the pending list in slot
        order, n of them at most, and the one-shot ones leave the table. */
    method ProcessReadReadies(lists: EventLists, rfds: set<int>, n0: int)
      requires Valid() && lists.Shape() && OffLists(lists, 0)
      modifies this, table, Members()`index, Members()`next, Members()`prev
      modifies lists`pending, lists.PendingRing()`next, lists.PendingRing()`prev
      ensures Valid() && lists.Shape()
      ensures lists.pending == old(lists.pending) + old(Ready(table[..], MAX_FD_EVENTS, rfds, n0))
      ensures table[..] == old(Collected(table[..], MAX_FD_EVENTS, rfds, n0))
      ensures forall e :: e in lists.PendingRing() ==> e in old(lists.PendingRing()) || e in old(Members())
      ensures forall e :: e in old(Members()) && e !in lists.pending ==> e.next == old(e.next)
    {
      var n := n0;
      var i := 0;
      ghost var slots, ring, members := table[..], lists.PendingRing(), Members();
      BudgetsSpent(slots, rfds, n0);
      while i < MAX_FD_EVENTS && n > 0
        invariant 0 <= i <= MAX_FD_EVENTS && Valid() && lists.Shape()
        invariant n == n0 - (|lists.pending| - |old(lists.pending)|)
        invariant lists.pending == old(lists.pending) + old(Ready(slots, i, rfds, n0))
        invariant table[..] == old(Collected(slots, i, rfds, n0))
        invariant OffLists(lists, i)
        invariant forall k :: 0 <= k < |lists.PendingRing()| ==> lists.PendingRing()[k] in ring || lists.PendingRing()[k] in members
        invariant forall e :: e in members && e !in lists.pending ==> e.next == old(e.next)
      {
        assert table[..][i..] == slots[i..] && table[..][i] == slots[i];
        assert EventAt(i) <= members;
        var found := ReadyTurn(lists, rfds, i);
        if found {
          n := n - 1;
        }
        i := i + 1;
      }
    }

    // No event of the table is a timer or heads a list.
    ghost predicate OffTimers(lists: EventLists)
      reads this, table, lists`timers
    {
      forall j :: 0 <= j < table.Length && table[j] != null ==> table[j] !in lists.TimerRing() && table[j] != lists.pendingList
    }

    lemma OffTimersNow(lists: EventLists, was: seq<Event?>)
      requires table.Length == |was|
      requires forall j :: 0 <= j < |was| && was[j] != null ==> was[j] !in lists.TimerRing() && was[j] != lists.pendingList
      requires forall j :: 0 <= j < |was| ==> table[j] == null || table[j] == was[j]
      ensures OffTimers(lists)
    {}

    // What is collected was there.
    lemma {:induction false} CollectedFrom(slots: seq<Event?>, i: nat, rfds: set<int>, n: int)
      requires i <= |slots|
      ensures forall j :: 0 <= j < |slots| ==> Collected(slots, i, rfds, n)[j] == null || Collected(slots, i, rfds, n)[j] == slots[j]
    {
      if i > 0 { CollectedFrom(slots, i - 1, rfds, n); }
    }

    // What select reported joins the expired timers, whose order it leaves.
    method CollectReady(lists: EventLists, rfds: set<int>, n: int)
      requires Valid() && lists.Valid() && OffLists(lists, 0)
      modifies this, table, Members()`index, Members()`next, Members()`prev
      modifies lists`pending, lists.PendingRing()`next, lists.PendingRing()`prev
      ensures Valid() && lists.Valid()
      ensures lists.pending == old(lists.pending) + old(Ready(table[..], MAX_FD_EVENTS, rfds, n))
      ensures table[..] == old(Collected(table[..], MAX_FD_EVENTS, rfds, n))
      ensures forall i :: 0 <= i < |lists.PendingRing()| ==>
                lists.PendingRing()[i] in old(lists.PendingRing()) || lists.PendingRing()[i] in old(Members())
      ensures forall e :: e in old(Members()) && e !in lists.pending ==> e.next == old(e.next)
      ensures OffTimers(lists)
    {
      ghost var was := table[..];
      CollectedFrom(was, MAX_FD_EVENTS, rfds, n);
      assert forall j :: 0 <= j < |was| && was[j] != null ==> was[j] !in lists.TimerRing() && was[j] != lists.pendingList by {
        assert lists.PendingRing()[0] == lists.pendingList;
        assert forall j :: 0 <= j < |was| ==> was[j] == table[j];
      }
      ProcessReadReadies(lists, rfds, n);
      assert forall j :: 0 <= j < |was| ==> table[..][j] == null || table[..][j] == was[j];
      OffTimersNow(lists, was);
      DeadlinesUntouched(lists.timers);
    }

    // Expiring moves events between the lists, and brings no others in.
    static method ExpireTimers(lists: EventLists) returns (now: Timeval)
      requires lists.Valid()
      modifies lists`clock, lists`timers, lists`pending
      modifies lists.TimerRing()`next, lists.TimerRing()`prev, lists.PendingRing()`next, lists.PendingRing()`prev
      ensures lists.Valid() && now == lists.clock && now.Micros() >= old(lists.clock.Micros())
      ensures var k := Earlier(old(Deadlines(lists.timers)), now.Micros());
              && lists.timers == old(lists.timers)[k..]
              && lists.pending == old(lists.pending) + old(lists.timers)[..k]
      ensures forall i :: 0 <= i < |lists.TimerRing()| ==> lists.TimerRing()[i] in old(lists.TimerRing())
      ensures forall i :: 0 <= i < |lists.PendingRing()| ==>
                lists.PendingRing()[i] in old(lists.PendingRing()) || lists.PendingRing()[i] in old(lists.TimerRing())
      ensures forall i :: 0 <= i < |old(lists.TimerRing())| ==> old(lists.TimerRing())[i].next != null
      ensures forall i :: 0 <= i < |old(lists.PendingRing())| ==> old(lists.PendingRing())[i].next != null
    {
      ghost var all, waiting := lists.timers, lists.pending;
      now := lists.ProcessTimeouts();
      ghost var k := |all| - |lists.timers|;
      RingsMoved(lists.timerList, lists.pendingList, all, waiting, k);
      lists.MembersLinked();
      NoneLost(lists.timerList, lists.pendingList, all, waiting, k);
    }

    static lemma NoneLost(timerList: Event, pendingList: Event, all: seq<Event>, waiting: seq<Event>, k: nat)
      requires k <= |all|
      ensures var ring := [timerList] + all;
              forall i :: 0 <= i < |ring| ==> ring[i] in [timerList] + all[k..] || ring[i] in [pendingList] + (waiting + all[..k])
      ensures var ring := [pendingList] + waiting; forall i :: 0 <= i < |ring| ==> ring[i] in [pendingList] + (waiting + all[..k])
    {
      var ring := [timerList] + all;
      forall i | 0 <= i < |ring| ensures ring[i] in [timerList] + all[k..] || ring[i] in [pendingList] + (waiting + all[..k]) {
        if 0 < i <= k {
          assert ring[i] == ([pendingList] + (waiting + all[..k]))[|waiting| + i];
        } else if i > k {
          assert ring[i] == ([timerList] + all[k..])[i - k];
        }
      }
    }

    // The expired prefix goes from ring to ring.
    static lemma RingsMoved(timerList: Event, pendingList: Event, all: seq<Event>, waiting: seq<Event>, k: nat)
      requires k <= |all|
      ensures var ring := [timerList] + all[k..]; forall i :: 0 <= i < |ring| ==> ring[i] in [timerList] + all
      ensures var ring := [pendingList] + (waiting + all[..k]);
              forall i :: 0 <= i < |ring| ==> ring[i] in [pendingList] + waiting || ring[i] in [timerList] + all
    {
      var ring := [pendingList] + (waiting + all[..k]);
      forall i | 0 <= i < |ring| ensures ring[i] in [pendingList] + waiting || ring[i] in [timerList] + all {
        if 0 < i <= |waiting| {
          assert ring[i] == ([pendingList] + waiting)[i];
        } else if i > |waiting| {
          assert ring[i] == ([timerList] + all)[i - |waiting|];
        }
      }
    }

    // The table's events, which are on no list, are left alone.
    method ExpireOff(lists: EventLists) returns (now: Timeval)
      requires Valid() && lists.Valid() && OffLists(lists, 0)
      modifies lists`clock, lists`timers, lists`pending
      modifies lists.TimerRing()`next, lists.TimerRing()`prev, lists.PendingRing()`next, lists.PendingRing()`prev
      ensures Valid() && lists.Valid() && OffLists(lists, 0)
      ensures now == lists.clock && now.Micros() >= old(lists.clock.Micros())
      ensures var k := Earlier(old(Deadlines(lists.timers)), now.Micros());
              && lists.timers == old(lists.timers)[k..]
              && lists.pending == old(lists.pending) + old(lists.timers)[..k]
      ensures forall i :: 0 <= i < |lists.TimerRing()| ==> lists.TimerRing()[i] in old(lists.TimerRing())
      ensures forall i :: 0 <= i < |lists.PendingRing()| ==>
                lists.PendingRing()[i] in old(lists.PendingRing()) || lists.PendingRing()[i] in old(lists.TimerRing())
      ensures forall i :: 0 <= i < |old(lists.TimerRing())| ==> old(lists.TimerRing())[i].next != null
      ensures forall i :: 0 <= i < |old(lists.PendingRing())| ==> old(lists.PendingRing())[i].next != null
    {
      now := ExpireTimers(lists);
      TableUntouched();
    }

    // Nor is what the table has ready changed.
    method Expire(lists: EventLists, ghost rfds: set<int>, ghost n: int) returns (now: Timeval)
      requires Valid() && lists.Valid() && OffLists(lists, 0)
      modifies lists`clock, lists`timers, lists`pending
      modifies lists.TimerRing()`next, lists.TimerRing()`prev, lists.PendingRing()`next, lists.PendingRing()`prev
      ensures Valid() && lists.Valid() && OffLists(lists, 0)
      ensures now == lists.clock && now.Micros() >= old(lists.clock.Micros())
      ensures var k := Earlier(old(Deadlines(lists.timers)), now.Micros());
              && lists.timers == old(lists.timers)[k..]
              && lists.pending == old(lists.pending) + old(lists.timers)[..k]
      ensures Ready(table[..], MAX_FD_EVENTS, rfds, n) == old(Ready(table[..], MAX_FD_EVENTS, rfds, n))
      ensures Collected(table[..], MAX_FD_EVENTS, rfds, n) == old(Collected(table[..], MAX_FD_EVENTS, rfds, n))
      ensures FdsOf(Collected(table[..], MAX_FD_EVENTS, rfds, n)) == old(FdsOf(Collected(table[..], MAX_FD_EVENTS, rfds, n)))
      ensures table[..] == old(table[..]) && Members() == old(Members())
      ensures forall i :: 0 <= i < |lists.TimerRing()| ==> lists.TimerRing()[i] in old(lists.TimerRing())
      ensures forall i :: 0 <= i < |lists.PendingRing()| ==>
                lists.PendingRing()[i] in old(lists.PendingRing()) || lists.PendingRing()[i] in old(lists.TimerRing())
      ensures forall i :: 0 <= i < |old(lists.TimerRing())| ==> old(lists.TimerRing())[i].next != null
      ensures forall i :: 0 <= i < |old(lists.PendingRing())| ==> old(lists.PendingRing())[i].next != null
    {
      ghost var slots := Collected(table[..], MAX_FD_EVENTS, rfds, n);
      now := ExpireOff(lists);
      FdsUntouched(slots);
    }
  }
}
