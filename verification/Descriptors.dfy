/** File descriptors: read() and write() transfer any amount they like, or fail,
    at every call. */
module Descriptors {
  import opened Basics

  /** What one read(2) does: gives n bytes more than one at most, or fails. */
  datatype ReadOutcome = Gives(n: nat) | Fails

  /** The receiving end of a socket: the bytes that have yet to be read, and the
      outcomes in store, after which reads give all there is room for. */
  class Source {
    var unread: seq<Byte>
    var schedule: seq<ReadOutcome>
    var failed: bool                 // the last read failed

    constructor (bytes: seq<Byte>, schedule: seq<ReadOutcome>)
      ensures unread == bytes && this.schedule == schedule && !failed
    {
      unread, this.schedule, failed := bytes, schedule, false;
    }

    /** No read has failed last, and none will. */
    ghost predicate Steady()
      reads this`schedule, this`failed
    {
      !failed && Fails !in schedule
    }

    /** The last read failed, or there is nothing left to read. */
    ghost predicate Stopped()
      reads this`unread, this`failed
    {
      failed || unread == []
    }

    /** read(2) with room for cap bytes at dst[off..]: some bytes, or an error
        (-1), or nothing at the end of the stream, and only there.  Never called
        with no room. */
    method Read(dst: array<Byte>, off: nat, cap: nat) returns (count: int)
      requires 0 < cap && off + cap <= dst.Length
      modifies this, dst
      ensures -1 <= count <= Min(cap, |old(unread)|)
      ensures count == 0 ==> old(unread) == []
      ensures failed <==> count < 0
      ensures failed ==> old(schedule) != []
      ensures if old(schedule) == [] then schedule == [] else schedule == old(schedule)[1..]
      ensures old(Steady()) ==> Steady()
      ensures var n := Max(count, 0);
              && unread == old(unread)[n..]
              && dst[..] == old(dst[..off]) + old(unread)[..n] + old(dst[off + n..])
    {
      count := Min(cap, |unread|);
      if schedule != [] {
        match schedule[0] {
          case Gives(n) => count := Min(n + 1, count);
          case Fails => count := -1;
        }
        schedule := schedule[1..];
      }
      failed := count < 0;
      var n, i := Max(count, 0), 0;
      while i < n
        modifies dst
        invariant 0 <= i <= n <= |unread| && n <= cap
        invariant forall k :: 0 <= k < i ==> dst[off + k] == unread[k]
        invariant forall k :: 0 <= k < dst.Length && !(off <= k < off + i) ==> dst[k] == old(dst[k])
      {
        dst[off + i] := unread[i];
        i := i + 1;
      }
      unread := unread[i..];
    }
  }

  /** What one write(2) does: takes n bytes at most, is interrupted or would
      block, or fails for good. */
  datatype WriteOutcome = Takes(n: nat) | Retry | Broken

  /** The sending end: the outcomes in store, after which writes are taken
      whole, and every byte taken so far.  Closed, it takes nothing more. */
  class Sink {
    var schedule: seq<WriteOutcome>
    var sent: seq<Byte>
    var open: bool

    constructor (schedule: seq<WriteOutcome>)
      ensures this.schedule == schedule && sent == [] && open
    {
      this.schedule := schedule;
      sent := [];
      open := true;
    }

    /** Nothing has failed for good, and nothing will. */
    ghost predicate Healthy()
      reads this`schedule, this`open
    {
      open && Broken !in schedule
    }

    method Write(data: seq<Byte>) returns (written: int, retry: bool)
      modifies this
      ensures written <= |data| && open == old(open)
      ensures sent == old(sent) + data[..Max(written, 0)]
      ensures !open ==> written < 0 && !retry && schedule == old(schedule)
      ensures open && old(schedule) == [] ==> written == |data| && schedule == []
      ensures open && old(schedule) != [] ==> schedule == old(schedule)[1..]
      ensures retry ==> written < 0
      ensures old(Healthy()) ==> Healthy() && (written >= 0 || retry)
    {
      if !open {
        written, retry := -1, false;
      } else if schedule == [] {
        written, retry := |data|, false;
      } else {
        match schedule[0] {
          case Takes(n) => written, retry := Min(n, |data|), false;
          case Retry => written, retry := -1, true;
          case Broken => written, retry := -1, false;
        }
        schedule := schedule[1..];
      }
      sent := sent + data[..Max(written, 0)];
    }

    method Close()
      modifies this`open
      ensures !open
    {
      open := false;
    }
  }
}
