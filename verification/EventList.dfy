/** The intrusive circular lists of the event loop (libril/ril_event.cpp). */
module EventList {
  import opened Timers

  class Event {
    var next: Event?
    var prev: Event?
    var fd: int
    var index: int
    var persist: bool
    var timeout: Timeval

    /** ril_event_set */
    constructor (fd: int, persist: bool)
      ensures this.fd == fd && this.persist == persist && index == -1 && next == null && prev == null
      ensures timeout == Timeval(0, 0)
    {
      this.fd := fd;
      this.persist := persist;
      index := -1;
      next, prev := null, null;
      timeout := Timeval(0, 0);
    }

    /** ril_event_set on memory that was an event before */
    method Set(fd: int, persist: bool)
      modifies this
      ensures this.fd == fd && this.persist == persist && index == -1 && next == null && prev == null
    {
      this.fd := fd;
      this.persist := persist;
      index := -1;
      next, prev := null, null;
      timeout := Timeval(0, 0);
    }
  }

  function Succ(i: nat, n: nat): nat {
    if i + 1 < n then i + 1 else 0
  }

  function Pred(i: nat, n: nat): int {
    if i == 0 then n - 1 else i - 1
  }

  ghost predicate Distinct(nodes: seq<Event>) {
    forall i, j :: 0 <= i < j < |nodes| ==> nodes[i] != nodes[j]
  }

  // Node i is linked to its neighbours.
  ghost predicate LinkedAt(nodes: seq<Event>, i: nat)
    requires i < |nodes|
    reads nodes`next, nodes`prev
  {
    nodes[i].next == nodes[Succ(i, |nodes|)] && nodes[i].prev == nodes[Pred(i, |nodes|)]
  }

  /** The nodes, the list head first, are linked both ways in a circle. */
  ghost predicate Ring(nodes: seq<Event>)
    reads nodes`next, nodes`prev
  {
    nodes != [] && Distinct(nodes) && forall i :: 0 <= i < |nodes| ==> LinkedAt(nodes, i)
  }

  lemma InsertedAt(nodes: seq<Event>, k: nat, ev: Event)
    requires k <= |nodes|
    ensures var r := Insert(nodes, k, ev);
            forall i :: 0 <= i < |r| ==> r[i] == if i < k then nodes[i] else if i == k then ev else nodes[i - 1]
    ensures Distinct(nodes) && ev !in nodes ==> Distinct(Insert(nodes, k, ev))
  {}

  lemma RemovedAt(nodes: seq<Event>, k: nat)
    requires k < |nodes|
    ensures var r := Remove(nodes, k);
            forall i :: 0 <= i < |r| ==> r[i] == if i < k then nodes[i] else nodes[i + 1]
    ensures Distinct(nodes) ==> Distinct(Remove(nodes, k))
  {}

  // Node j as in the ring, except that node a goes on to x and node b back to y.
  ghost predicate LinkedBut(nodes: seq<Event>, j: nat, a: int, x: Event, b: int, y: Event)
    requires j < |nodes|
    reads nodes`next, nodes`prev
  {
    && nodes[j].next == (if j == a then x else nodes[Succ(j, |nodes|)])
    && nodes[j].prev == (if j == b then y else nodes[Pred(j, |nodes|)])
  }

  lemma InsertedRing(nodes: seq<Event>, k: nat, ev: Event, l: nat, h: nat)
    requires Distinct(nodes) && ev !in nodes && 0 < k <= |nodes|
    requires l == k - 1 && h == (if k < |nodes| then k else 0)
    requires ev.next == nodes[h] && ev.prev == nodes[l]
    requires forall j :: 0 <= j < |nodes| ==> LinkedBut(nodes, j, l, ev, h, ev)
    ensures Ring(Insert(nodes, k, ev))
  {
    InsertedAt(nodes, k, ev);
    var r := Insert(nodes, k, ev);
    forall i | 0 <= i < |r| ensures LinkedAt(r, i) {
      if i != k {
        var j := if i < k then i else i - 1;
        assert LinkedBut(nodes, j, l, ev, h, ev);
      }
    }
  }

  lemma RemovedRing(nodes: seq<Event>, k: nat, l: nat, before: Event, h: nat, after: Event)
    requires Distinct(nodes) && 0 < k < |nodes|
    requires l == k - 1 && h == Succ(k, |nodes|) && before == nodes[l] && after == nodes[h]
    requires forall j :: 0 <= j < |nodes| && j != k ==> LinkedBut(nodes, j, l, after, h, before)
    ensures Ring(Remove(nodes, k))
  {
    RemovedAt(nodes, k);
    var r := Remove(nodes, k);
    forall i | 0 <= i < |r| ensures LinkedAt(r, i) {
      var j := if i < k then i else i + 1;
      assert LinkedBut(nodes, j, l, after, h, before);
    }
  }

  /** init_list */
  method InitList(list: Event)
    modifies list
    ensures Ring([list]) && list.timeout == Timeval(0, 0)
  {
    list.timeout := Timeval(0, 0);
    list.next := list;
    list.prev := list;
    list.fd := -1;
  }

  /** addToList: ev goes in before the node `at`, at the end if that is the
      head. */
  method AddToList(ev: Event, at: Event, ghost nodes: seq<Event>, ghost k: nat)
    requires Ring(nodes) && ev !in nodes
    requires 0 < k <= |nodes| && at == (if k < |nodes| then nodes[k] else nodes[0])
    modifies ev`next, ev`prev, nodes`next, nodes`prev
    ensures Ring(Insert(nodes, k, ev))
  {
    ghost var l, h := k - 1, if k < |nodes| then k else 0;
    assert LinkedAt(nodes, h);
    ev.next := at;
    ev.prev := at.prev;
    ev.prev.next := ev;
    at.prev := ev;
    forall j | 0 <= j < |nodes| ensures LinkedBut(nodes, j, l, ev, h, ev) {
      assert old(LinkedAt(nodes, j));
    }
    InsertedRing(nodes, k, ev, l, h);
  }

  /** removeFromList */
  method RemoveFromList(ev: Event, ghost nodes: seq<Event>, ghost k: nat)
    requires Ring(nodes) && 0 < k < |nodes| && nodes[k] == ev
    modifies nodes`next, nodes`prev
    ensures Ring(Remove(nodes, k))
    ensures ev.next == null && ev.prev == null
  {
    ghost var l, h := k - 1, Succ(k, |nodes|);
    ghost var before, after := nodes[l], nodes[h];
    assert LinkedAt(nodes, k);
    ev.next.prev := ev.prev;
    ev.prev.next := ev.next;
    ev.next := null;
    ev.prev := null;
    forall j | 0 <= j < |nodes| && j != k ensures LinkedBut(nodes, j, l, after, h, before) {
      assert old(LinkedAt(nodes, j));
    }
    RemovedRing(nodes, k, l, before, h, after);
  }
}
