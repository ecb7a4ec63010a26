/** Times and the order of the timer list (the timeval macros and the list walks
    of libril/ril_event.cpp). */
module Timers {

  const MICROS: nat := 1_000_000

  /** struct timeval; normal when the microseconds are below a second. */
  datatype Timeval = Timeval(sec: int, usec: int) {
    predicate Normal() {
      sec >= 0 && 0 <= usec < MICROS
    }

    function Micros(): int {
      sec * MICROS + usec
    }
  }

  // timeradd
  function TimerAdd(a: Timeval, b: Timeval): Timeval {
    var sec, usec := a.sec + b.sec, a.usec + b.usec;
    if usec >= MICROS then Timeval(sec + 1, usec - MICROS) else Timeval(sec, usec)
  }

  // timersub
  function TimerSub(a: Timeval, b: Timeval): Timeval {
    var sec, usec := a.sec - b.sec, a.usec - b.usec;
    if usec < 0 then Timeval(sec - 1, usec + MICROS) else Timeval(sec, usec)
  }

  // timercmp(a, b, <); timercmp(a, b, >) is Less(b, a)
  predicate Less(a: Timeval, b: Timeval) {
    if a.sec == b.sec then a.usec < b.usec else a.sec < b.sec
  }

  /** On normal values the macros are addition, subtraction and order, and stay
      normal. */
  lemma MacrosMeanArithmetic(a: Timeval, b: Timeval)
    requires a.Normal() && b.Normal()
    ensures TimerAdd(a, b).Normal() && TimerAdd(a, b).Micros() == a.Micros() + b.Micros()
    ensures Less(a, b) <==> a.Micros() < b.Micros()
    ensures Less(b, a) ==> TimerSub(a, b).Normal() && TimerSub(a, b).Micros() == a.Micros() - b.Micros()
    ensures a.Micros() == b.Micros() ==> a == b
  {}

  // ---------------------------------------------------------------- the sorted list

  ghost predicate Sorted(ds: seq<int>) {
    forall i, j :: 0 <= i < j < |ds| ==> ds[i] <= ds[j]
  }

  /** How many deadlines at the front are before d: where ril_timer_add puts d,
      and how many timers processTimeouts takes off at time d. */
  function Earlier(ds: seq<int>, d: int): (k: nat)
    ensures k <= |ds|
    ensures forall i :: 0 <= i < k ==> ds[i] < d
    ensures k < |ds| ==> d <= ds[k]
  {
    if ds != [] && ds[0] < d then 1 + Earlier(ds[1..], d) else 0
  }

  lemma EarlierUnique(ds: seq<int>, d: int, k: nat)
    requires k <= |ds| && (forall i :: 0 <= i < k ==> ds[i] < d) && (k < |ds| ==> d <= ds[k])
    ensures k == Earlier(ds, d)
  {}

  function Insert<T>(s: seq<T>, k: nat, x: T): (r: seq<T>)
    requires k <= |s|
    ensures |r| == |s| + 1 && r[k] == x
  {
    s[..k] + [x] + s[k..]
  }

  lemma InsertBehind<T>(s: seq<T>, k: nat, x: T)
    requires s != [] && k < |s|
    ensures [s[0]] + Insert(s[1..], k, x) == Insert(s, k + 1, x)
  {}

  function Remove<T>(s: seq<T>, k: nat): (r: seq<T>)
    requires k < |s|
    ensures |r| == |s| - 1
  {
    s[..k] + s[k + 1..]
  }

  lemma InsertKeepsSorted(ds: seq<int>, d: int)
    requires Sorted(ds)
    ensures Sorted(Insert(ds, Earlier(ds, d), d))
  {
    var k := Earlier(ds, d);
    var r := Insert(ds, k, d);
    forall i, j | 0 <= i < j < |r| ensures r[i] <= r[j] {
      assert r[i] == if i < k then ds[i] else if i == k then d else ds[i - 1];
      assert r[j] == if j < k then ds[j] else if j == k then d else ds[j - 1];
    }
  }

  /** In a sorted list exactly the timers before `now` are taken. */
  lemma ExpiredExactly(ds: seq<int>, now: int)
    requires Sorted(ds)
    ensures forall i :: 0 <= i < |ds| ==> (i < Earlier(ds, now) <==> ds[i] < now)
  {}
}
