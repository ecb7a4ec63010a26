/** Length-prefixed records over a byte stream: the reader of
    librilutils/record_stream.c and the writer in libril/ril.cpp.

    The reference is a pure parse of the whole stream. */
module RecordStream {
  import opened Basics
  import opened Descriptors

  const HEADER_SIZE: nat := 4
  const MAX_COMMAND_BYTES: nat := 8 * 1024
  const UINT32_LIMIT: nat := 0x1_0000_0000

  type Record = seq<Byte>

  // ---------------------------------------------------------------- the pure stream format

  function Header(n: nat): (h: seq<Byte>)
    requires n < UINT32_LIMIT
    ensures |h| == HEADER_SIZE
  {
    [n / 0x100_0000, n / 0x1_0000 % 0x100, n / 0x100 % 0x100, n % 0x100]
  }

  // ntohl of the first four bytes
  function Length(s: seq<Byte>): (n: nat)
    requires |s| >= HEADER_SIZE
    ensures n < UINT32_LIMIT
  {
    s[0] as int * 0x100_0000 + s[1] as int * 0x1_0000 + s[2] as int * 0x100 + s[3] as int
  }

  function Frame(r: Record): seq<Byte>
    requires |r| < UINT32_LIMIT
  {
    Header(|r|) + r
  }

  ghost predicate Framable(rs: seq<Record>) {
    forall r :: r in rs ==> |r| < UINT32_LIMIT
  }

  function Frames(rs: seq<Record>): seq<Byte>
    requires Framable(rs)
  {
    if rs == [] then [] else Frame(rs[0]) + Frames(rs[1..])
  }

  // A complete record stands at the front.
  predicate Complete(s: seq<Byte>) {
    |s| >= HEADER_SIZE && |s| >= HEADER_SIZE + Length(s)
  }

  function First(s: seq<Byte>): (r: Record)
    requires Complete(s)
    ensures |r| == Length(s)
  {
    s[HEADER_SIZE..HEADER_SIZE + Length(s)]
  }

  function Parse(s: seq<Byte>): seq<Record>
    decreases |s|
  {
    if Complete(s) then [First(s)] + Parse(s[HEADER_SIZE + Length(s)..]) else []
  }

  lemma HeaderLength(n: nat, rest: seq<Byte>)
    requires n < UINT32_LIMIT
    ensures Length(Header(n) + rest) == n
  {
    var s := Header(n) + rest;
    assert s[0] == n / 0x100_0000 && s[1] == n / 0x1_0000 % 0x100;
    assert s[2] == n / 0x100 % 0x100 && s[3] == n % 0x100;
    assert n / 0x1_0000 / 0x100 == n / 0x100_0000;
    assert n / 0x100 / 0x100 == n / 0x1_0000;
  }

  /** On the wire: four bytes of length, the most significant first, and the
      record. */
  lemma FrameLayout(r: Record)
    requires |r| < UINT32_LIMIT
    ensures var f := Frame(r);
            && |f| == 4 + |r| && f[4..] == r
            && ((f[0] as int * 256 + f[1] as int) * 256 + f[2] as int) * 256 + f[3] as int == |r|
  {
    HeaderLength(|r|, r);
    assert Length(Frame(r)) == |r|;
  }

  // The header determines its four bytes.
  lemma LengthHeader(s: seq<Byte>)
    requires |s| >= HEADER_SIZE
    ensures s[..HEADER_SIZE] == Header(Length(s))
  {
    BytesOf(s[0] as int, s[1] as int, s[2] as int, s[3] as int);
  }

  lemma BytesOf(a: nat, b: nat, c: nat, d: nat)
    requires b < 0x100 && c < 0x100 && d < 0x100
    ensures var n := a * 0x100_0000 + b * 0x1_0000 + c * 0x100 + d;
            && n / 0x100_0000 == a && n / 0x1_0000 % 0x100 == b
            && n / 0x100 % 0x100 == c && n % 0x100 == d
  {
    LowByte(a, b);
    LowByte(a * 0x100 + b, c);
    LowByte((a * 0x100 + b) * 0x100 + c, d);
    DivideTwice(((a * 0x100 + b) * 0x100 + c) * 0x100 + d);
  }

  lemma LowByte(high: nat, low: nat)
    requires low < 0x100
    ensures (high * 0x100 + low) / 0x100 == high && (high * 0x100 + low) % 0x100 == low
  {}

  lemma DivideTwice(n: nat)
    ensures n / 0x1_0000 == n / 0x100 / 0x100 && n / 0x100_0000 == n / 0x100 / 0x100 / 0x100
  {}

  // A complete record is framed.
  lemma FrameFirst(s: seq<Byte>)
    requires Complete(s)
    ensures Frame(First(s)) == s[..HEADER_SIZE + Length(s)]
  {
    LengthHeader(s);
    assert s[..HEADER_SIZE] + First(s) == s[..HEADER_SIZE + Length(s)];
  }

  lemma {:induction false} FramesAppend(a: seq<Record>, b: seq<Record>)
    requires Framable(a) && Framable(b)
    ensures Framable(a + b) && Frames(a + b) == Frames(a) + Frames(b)
  {
    if a == [] {
      assert a + b == b;
    } else {
      assert (a + b)[1..] == a[1..] + b;
      FramesAppend(a[1..], b);
      assert Framable(a + b);
    }
  }

  lemma ParseFrame(r: Record, tail: seq<Byte>)
    requires |r| < UINT32_LIMIT
    ensures Parse(Frame(r) + tail) == [r] + Parse(tail)
  {
    var s := Frame(r) + tail;
    assert s == Header(|r|) + (r + tail);
    HeaderLength(|r|, r + tail);
    assert First(s) == r;
    assert s[HEADER_SIZE + |r|..] == tail;
  }

  /** What was framed first is parsed first, whatever follows it. */
  lemma {:induction false} ParseFrames(rs: seq<Record>, rest: seq<Byte>)
    requires Framable(rs)
    ensures Parse(Frames(rs) + rest) == rs + Parse(rest)
  {
    if rs == [] {
      assert Frames(rs) + rest == rest;
    } else {
      var tail := Frames(rs[1..]) + rest;
      Associate(Frame(rs[0]), Frames(rs[1..]), rest);
      ParseFrame(rs[0], tail);
      ParseFrames(rs[1..], rest);
      Associate([rs[0]], rs[1..], Parse(rest));
      assert rs == [rs[0]] + rs[1..];
    }
  }

  // One more record framed.
  lemma FramesSnoc(rs: seq<Record>, r: Record)
    requires Framable(rs) && |r| < UINT32_LIMIT
    ensures Framable(rs + [r]) && Frames(rs + [r]) == Frames(rs) + Frame(r)
  {
    FramesAppend(rs, [r]);
    assert Frames([r]) == Frame(r) + Frames([]);
  }

  /** The record r came off the front of s, leaving rest. */
  predicate Taken(s: seq<Byte>, r: Record, rest: seq<Byte>) {
    Complete(s) && r == First(s) && rest == s[HEADER_SIZE + |r|..]
  }

  // A record complete in a prefix is the first of the whole.
  lemma FrontOf(s: seq<Byte>, rest: seq<Byte>)
    requires Complete(s)
    ensures Complete(s + rest) && First(s + rest) == First(s)
    ensures (s + rest)[HEADER_SIZE + Length(s)..] == s[HEADER_SIZE + Length(s)..] + rest
  {}

  // ---------------------------------------------------------------- the writer

  // write(), repeated while it is interrupted or would block
  method WriteAgain(fd: Sink, data: seq<Byte>) returns (written: int)
    modifies fd
    ensures written <= |data| && fd.open == old(fd.open) && (!fd.open ==> written < 0)
    ensures fd.sent == old(fd.sent) + data[..Max(written, 0)]
    ensures written < 0 || |fd.schedule| < |old(fd.schedule)| || (fd.schedule == [] && written == |data|)
    ensures old(fd.Healthy()) ==> written >= 0 && fd.Healthy()
  {
    var retry;
    written, retry := fd.Write(data);
    while retry
      invariant written <= |data| && (retry ==> written < 0)
      invariant fd.open == old(fd.open) && (!fd.open ==> written < 0 && !retry)
      invariant fd.sent == old(fd.sent) + data[..Max(written, 0)]
      invariant written < 0 || |fd.schedule| < |old(fd.schedule)| || (fd.schedule == [] && written == |data|)
      invariant |fd.schedule| <= |old(fd.schedule)|
      invariant old(fd.Healthy()) ==> (written >= 0 || retry) && fd.Healthy()
      decreases |fd.schedule|, retry
    {
      written, retry := fd.Write(data);
    }
  }

  // Less than all of the bytes went out.
  ghost predicate SentLess(was: seq<Byte>, now: seq<Byte>, bytes: seq<Byte>) {
    exists n: nat :: n < |bytes| && now == was + bytes[..n]
  }

  /** blockingWrite: all of it, or less than all, an error, and the descriptor
      closed; the latter only after a write has failed. */
  method BlockingWrite(fd: Sink, buffer: seq<Byte>) returns (ok: bool)
    modifies fd
    ensures ok ==> fd.sent == old(fd.sent) + buffer && fd.open == old(fd.open)
    ensures !ok ==> SentLess(old(fd.sent), fd.sent, buffer) && !fd.open
    ensures !old(fd.open) && buffer != [] ==> !ok && fd.sent == old(fd.sent)
    ensures old(fd.Healthy()) ==> ok && fd.Healthy()
  {
    var writeOffset: nat := 0;
    while writeOffset < |buffer|
      invariant writeOffset <= |buffer| && fd.open == old(fd.open)
      invariant fd.sent == old(fd.sent) + buffer[..writeOffset]
      invariant !fd.open ==> writeOffset == 0
      invariant old(fd.Healthy()) ==> fd.Healthy()
      decreases |fd.schedule| + |buffer| - writeOffset
    {
      var rest := buffer[writeOffset..];
      var written := WriteAgain(fd, rest);
      if written < 0 {
        fd.Close();
        return false;
      }
      assert buffer[..writeOffset] + rest[..written] == buffer[..writeOffset + written];
      writeOffset := writeOffset + written;
    }
    assert buffer[..writeOffset] == buffer;
    return true;
  }

  /** sendResponseRaw on a command descriptor, or none: a whole frame; or
      nothing, because there is no descriptor or the data are too large; or less
      than a frame, and the descriptor closed, only after a write has failed. */
  method SendResponseRaw(fd: Sink?, data: seq<Byte>) returns (ok: bool)
    modifies fd
    ensures fd == null || |data| > MAX_COMMAND_BYTES ==> !ok
    ensures fd != null && |data| > MAX_COMMAND_BYTES ==> fd.sent == old(fd.sent) && fd.open == old(fd.open)
    ensures fd != null && |data| <= MAX_COMMAND_BYTES ==>
              if ok then fd.sent == old(fd.sent) + Frame(data) && fd.open == old(fd.open)
              else SentLess(old(fd.sent), fd.sent, Frame(data)) && !fd.open
    ensures fd != null && !old(fd.open) ==> !ok && fd.sent == old(fd.sent)
    ensures fd != null && old(fd.Healthy()) ==> fd.Healthy() && (ok <==> |data| <= MAX_COMMAND_BYTES)
  {
    if fd == null || |data| > MAX_COMMAND_BYTES {
      return false;
    }
    var header := Header(|data|);
    ok := BlockingWrite(fd, header);
    if !ok {
      ghost var n: nat :| n < |header| && fd.sent == old(fd.sent) + header[..n];
      assert Frame(data)[..n] == header[..n];
      return false;
    }
    label sentHeader:
    ok := BlockingWrite(fd, data);
    if !ok {
      ghost var m: nat :| m < |data| && fd.sent == old@sentHeader(fd.sent) + data[..m];
      assert Frame(data)[..HEADER_SIZE + m] == header + data[..m];
    }
  }

  lemma FramesUpTo(payloads: seq<Record>, i: nat)
    requires Framable(payloads) && i < |payloads|
    ensures Framable(payloads[..i]) && Framable(payloads[..i + 1])
    ensures Frames(payloads[..i + 1]) == Frames(payloads[..i]) + Frame(payloads[i])
  {
    assert payloads[..i + 1] == payloads[..i] + [payloads[i]];
    FramesSnoc(payloads[..i], payloads[i]);
  }

  /** Sends every payload in turn, stopping at the first failure, of which there
      is none unless a write fails. */
  method SendAll(fd: Sink, payloads: seq<Record>) returns (ok: bool)
    requires forall r :: r in payloads ==> |r| <= MAX_COMMAND_BYTES
    modifies fd
    ensures ok ==> fd.sent == old(fd.sent) + Frames(payloads)
    ensures old(fd.Healthy()) ==> ok && fd.Healthy()
  {
    ok := true;
    ghost var framed: seq<Byte> := [];
    var i := 0;
    while i < |payloads|
      invariant 0 <= i <= |payloads| && framed == Frames(payloads[..i])
      invariant fd.sent == old(fd.sent) + framed
      invariant old(fd.Healthy()) ==> fd.Healthy()
    {
      ok := SendResponseRaw(fd, payloads[i]);
      if !ok {
        return;
      }
      FramesUpTo(payloads, i);
      Associate(old(fd.sent), framed, Frame(payloads[i]));
      framed := framed + Frame(payloads[i]);
      i := i + 1;
    }
    assert payloads[..i] == payloads;
  }

  // ---------------------------------------------------------------- the reader

  /** What record_stream_get_next reports: a record lying at buffer[start..start
      + len], end of stream, a call to be repeated, a read error, or a record
      that cannot fit. */
  datatype Outcome = Delivered(start: nat, len: nat) | EndOfStream | Again | ReadError | TooBig

  class RecordReader {
    const fd: Source
    const maxRecordLen: nat
    const buffer: array<Byte>
    var unconsumed: nat
    var readEnd: nat

    ghost predicate Valid()
      reads this
    {
      && maxRecordLen + HEADER_SIZE == buffer.Length
      && unconsumed <= readEnd <= buffer.Length
    }

    function Buffered(): seq<Byte>
      requires Valid()
      reads this, buffer
    {
      buffer[unconsumed..readEnd]
    }

    /** The part of the stream that has not been delivered. */
    ghost function Remaining(): seq<Byte>
      requires Valid()
      reads this, buffer, fd
    {
      Buffered() + fd.unread
    }

    /** record_stream_new */
    constructor (fd: Source, maxRecordLen: nat)
      requires maxRecordLen <= 0xffff
      ensures Valid() && fresh(buffer)
      ensures this.fd == fd && this.maxRecordLen == maxRecordLen
      ensures Remaining() == fd.unread
    {
      this.fd := fd;
      this.maxRecordLen := maxRecordLen;
      buffer := new Byte[maxRecordLen + HEADER_SIZE];
      unconsumed := 0;
      readEnd := 0;
    }

    /** getNextRecord: the record at the front of the buffer, if all there. */
    method GetNextRecord() returns (found: bool, start: nat, len: nat)
      requires Valid()
      modifies this`unconsumed
      ensures Valid()
      ensures !found ==> unconsumed == old(unconsumed) && !Complete(Buffered())
      ensures found ==> start + len == unconsumed && start == old(unconsumed) + HEADER_SIZE && Taken(old(Remaining()), buffer[start..start + len], Remaining())
    {
      start, len := 0, 0;
      var pending := Buffered();
      found := Complete(pending);
      if found {
        start := unconsumed + HEADER_SIZE;
        len := Length(pending);
        unconsumed := start + len;
        assert pending[HEADER_SIZE..HEADER_SIZE + len] == buffer[start..start + len];
        assert buffer[start..start + len] == First(pending);
        FrontOf(pending, fd.unread);
        assert Buffered() == pending[HEADER_SIZE + len..];
      }
    }

    // The move of what is left to the start of the buffer.
    method Compact()
      requires Valid()
      modifies this`unconsumed, this`readEnd, buffer
      ensures Valid()
      ensures unconsumed == 0 && Buffered() == old(Buffered()) && Remaining() == old(Remaining())
    {
      var toMove := readEnd - unconsumed;
      for i := 0 to toMove
        invariant unconsumed == old(unconsumed) && readEnd == old(readEnd)
        invariant forall k :: 0 <= k < i ==> buffer[k] == old(buffer[unconsumed + k])
        invariant forall k :: i <= k < buffer.Length ==> buffer[k] == old(buffer[k])
      {
        buffer[i] := buffer[unconsumed + i];
      }
      readEnd := toMove;
      unconsumed := 0;
    }

    // read() appends to the buffer what it takes off the stream
    method Fill() returns (count: int)
      requires Valid() && readEnd < buffer.Length
      modifies this`readEnd, buffer, fd
      ensures Valid()
      ensures count <= 0 ==> Buffered() == old(Buffered())
      ensures Remaining() == old(Remaining())
      ensures count > 0 ==> |fd.unread| < |old(fd.unread)| && |fd.schedule| <= |old(fd.schedule)|
      ensures count == 0 ==> fd.unread == [] && |fd.schedule| <= |old(fd.schedule)|
      ensures count < 0 ==> fd.unread == old(fd.unread) && |fd.schedule| < |old(fd.schedule)|
    {
      ghost var had := Buffered();
      count := fd.Read(buffer, readEnd, buffer.Length - readEnd);
      ghost var taken := old(fd.unread)[..Max(count, 0)];
      assert buffer[..readEnd] == old(buffer[..readEnd]);
      assert buffer[unconsumed..readEnd] == had;
      if count > 0 {
        assert buffer[readEnd..readEnd + count] == taken;
        readEnd := readEnd + count;
        assert Buffered() == had + taken;
      }
    }

    // What the source has in store after r: after each call to be repeated it is
    // less, and at the end of the stream there is nothing to read.
    twostate predicate Progress(r: Outcome)
      reads fd
    {
      && |fd.unread| <= |old(fd.unread)| && |fd.schedule| <= |old(fd.schedule)|
      && (r.Again? ==> |fd.unread| < |old(fd.unread)|)
      && (r.EndOfStream? ==> fd.unread == [])
      && (r.ReadError? ==> |fd.schedule| < |old(fd.schedule)|)
    }

    /** record_stream_get_next: delivers exactly what the pure parse finds first
        in the undelivered stream, or leaves that stream as it was.  Without a
        record nothing complete is buffered; a call is to be repeated only after
        something was read, and the stream has ended only when there is nothing
        left to read; a record is refused only if its length exceeds the
        maximum. */
    method GetNext() returns (r: Outcome)
      requires Valid()
      modifies this, buffer, fd
      ensures Valid()
      ensures r.Delivered? ==> (
        && r.len <= maxRecordLen && r.start + r.len <= buffer.Length
        && Taken(old(Remaining()), buffer[r.start..r.start + r.len], Remaining()))
      ensures !r.Delivered? ==> Remaining() == old(Remaining()) && !Complete(Buffered())
      ensures r.TooBig? ==> |Buffered()| >= HEADER_SIZE && Length(Buffered()) > maxRecordLen
      ensures Progress(r)
    {
      var found, start, len := GetNextRecord();
      if found {
        return Delivered(start, len);
      }
      if unconsumed == 0 && readEnd == buffer.Length {
        return TooBig;
      }
      if unconsumed != 0 {
        Compact();
      }
      r := ReadMore();
    }

    // read(), and another look for a record
    method ReadMore() returns (r: Outcome)
      requires Valid() && readEnd < buffer.Length && !Complete(Buffered())
      modifies this`unconsumed, this`readEnd, buffer, fd
      ensures Valid()
      ensures r.Delivered? ==> (
        && r.start + r.len <= buffer.Length && r.start >= HEADER_SIZE
        && Taken(old(Remaining()), buffer[r.start..r.start + r.len], Remaining()))
      ensures !r.Delivered? ==> !r.TooBig? && Remaining() == old(Remaining()) && !Complete(Buffered())
      ensures Progress(r)
    {
      var count := Fill();
      if count <= 0 {
        return if count == 0 then EndOfStream else ReadError;
      }
      var found, start, len := GetNextRecord();
      r := if found then Delivered(start, len) else Again;
    }
  }
}

/** Whole connections: the command callback, any number of rounds of it, and
    the two ends joined. */
module RecordRuns {
  import opened Basics
  import opened Descriptors
  import opened RecordStream

  /** The records came off the front of s one after another, leaving rest. */
  ghost predicate Delivers(s: seq<Byte>, records: seq<Record>, rest: seq<Byte>) {
    if records == [] then s == rest
    else
      && Complete(s) && records[0] == First(s)
      && Delivers(s[HEADER_SIZE + Length(s)..], records[1..], rest)
  }

  lemma {:induction false} DeliversAppend(s: seq<Byte>, a: seq<Record>, mid: seq<Byte>, b: seq<Record>, rest: seq<Byte>)
    requires Delivers(s, a, mid) && Delivers(mid, b, rest)
    ensures Delivers(s, a + b, rest)
  {
    if a == [] {
      assert a + b == b;
    } else {
      assert (a + b)[1..] == a[1..] + b;
      DeliversAppend(s[HEADER_SIZE + Length(s)..], a[1..], mid, b, rest);
    }
  }

  lemma DeliversOne(s: seq<Byte>, r: Record, rest: seq<Byte>)
    requires Taken(s, r, rest)
    ensures Delivers(s, [r], rest)
  {
    assert [r][1..] == [];
  }

  lemma FramesCons(s: seq<Byte>, records: seq<Record>, tail: seq<Byte>, rest: seq<Byte>)
    requires records != [] && |records[0]| < UINT32_LIMIT && Framable(records[1..])
    requires Frame(records[0]) <= s && s[|Frame(records[0])|..] == tail == Frames(records[1..]) + rest
    ensures Framable(records) && s == Frames(records) + rest
  {
    var f := Frame(records[0]);
    assert s == f + tail;
    assert f + (Frames(records[1..]) + rest) == f + Frames(records[1..]) + rest;
    assert forall r :: r in records ==> r == records[0] || r in records[1..];
  }

  lemma {:induction false} DeliversFramed(s: seq<Byte>, records: seq<Record>, rest: seq<Byte>)
    requires Delivers(s, records, rest)
    ensures Framable(records)
    ensures s == Frames(records) + rest
  {
    if records == [] {
      assert Frames(records) + rest == rest;
    } else {
      var tail := s[HEADER_SIZE + Length(s)..];
      DeliversFramed(tail, records[1..], rest);
      FrameFirst(s);
      FramesCons(s, records, tail, rest);
    }
  }

  /** Delivering is parsing: framed again, the records are what left the stream,
      and they are the beginning of the pure parse. */
  lemma DeliversIsParse(s: seq<Byte>, records: seq<Record>, rest: seq<Byte>)
    requires Delivers(s, records, rest)
    ensures Framable(records)
    ensures s == Frames(records) + rest
    ensures Parse(s) == records + Parse(rest)
  {
    DeliversFramed(s, records, rest);
    ParseFrames(records, rest);
  }

  // Why a reader refuses: the record at the front is too long for it.
  ghost predicate TooLong(rs: RecordReader)
    requires rs.Valid()
    reads rs, rs.buffer
  {
    |rs.Buffered()| >= HEADER_SIZE && Length(rs.Buffered()) > rs.maxRecordLen
  }

  /** The receive loop of processCommandsCallback: takes records until there is
      none. */
  method Callback(rs: RecordReader) returns (records: seq<Record>, last: Outcome)
    requires rs.Valid()
    modifies rs, rs.buffer, rs.fd
    ensures rs.Valid()
    ensures forall r :: r in records ==> |r| <= rs.maxRecordLen
    ensures Delivers(old(rs.Remaining()), records, rs.Remaining())
    ensures !last.Delivered? && !Complete(rs.Buffered())
    ensures last.TooBig? ==> TooLong(rs)
    ensures rs.Progress(last)
  {
    records := [];
    while true
      invariant rs.Valid()
      invariant forall r :: r in records ==> |r| <= rs.maxRecordLen
      invariant Delivers(old(rs.Remaining()), records, rs.Remaining())
      invariant |rs.fd.unread| <= |old(rs.fd.unread)| && |rs.fd.schedule| <= |old(rs.fd.schedule)|
      decreases |rs.Remaining()|
    {
      ghost var had := rs.Remaining();
      last := rs.GetNext();
      if !last.Delivered? {
        return;
      }
      var record := rs.buffer[last.start..last.start + last.len];
      DeliversOne(had, record, rs.Remaining());
      DeliversAppend(old(rs.Remaining()), records, had, [record], rs.Remaining());
      records := records + [record];
    }
  }

  lemma NothingComplete(buffered: seq<Byte>)
    requires !Complete(buffered)
    ensures Parse(buffered) == []
  {}

  /** Any number of rounds, however read() cuts the stream up: the records are
      a prefix of the pure parse, all of it once everything has been read; and
      unless a record is refused, rounds enough for every byte and every outcome
      in store are enough to read everything. */
  method Run(rs: RecordReader, rounds: nat) returns (records: seq<Record>, refused: bool)
    requires rs.Valid()
    modifies rs, rs.buffer, rs.fd
    ensures rs.Valid()
    ensures forall r :: r in records ==> |r| <= rs.maxRecordLen
    ensures Framable(records) && old(rs.Remaining()) == Frames(records) + rs.Remaining()
    ensures Parse(old(rs.Remaining())) == records + Parse(rs.Remaining())
    ensures rounds > 0 && rs.fd.unread == [] ==> records == Parse(old(rs.Remaining()))
    ensures refused ==> TooLong(rs)
    ensures !refused && rounds > |old(rs.fd.unread)| + |old(rs.fd.schedule)| ==> rs.fd.unread == []
  {
    records, refused := [], false;
    var left := rounds;
    while left > 0 && !refused
      invariant rs.Valid() && left <= rounds
      invariant forall r :: r in records ==> |r| <= rs.maxRecordLen
      invariant Delivers(old(rs.Remaining()), records, rs.Remaining())
      invariant left < rounds ==> !Complete(rs.Buffered())
      invariant refused ==> TooLong(rs) && left < rounds
      invariant |rs.fd.unread| <= |old(rs.fd.unread)| && |rs.fd.schedule| <= |old(rs.fd.schedule)|
      invariant refused || rs.fd.unread == []
                || |rs.fd.unread| + |rs.fd.schedule| + rounds - left <= |old(rs.fd.unread)| + |old(rs.fd.schedule)|
    {
      ghost var had := rs.Remaining();
      var more, last := Callback(rs);
      DeliversAppend(old(rs.Remaining()), records, had, more, rs.Remaining());
      records := records + more;
      refused := last.TooBig?;
      left := left - 1;
    }
    DeliversIsParse(old(rs.Remaining()), records, rs.Remaining());
    if rounds > 0 && rs.fd.unread == [] {
      assert rs.Remaining() == rs.Buffered();
      NothingComplete(rs.Buffered());
    }
  }

  // Framed payloads of which some were taken leave the rest framed.
  lemma {:induction false} FramesLeft(payloads: seq<Record>, records: seq<Record>, rest: seq<Byte>)
    requires Framable(payloads) && Framable(records)
    requires Frames(payloads) == Frames(records) + rest
    ensures records <= payloads && rest == Frames(payloads[|records|..])
  {
    if records != [] {
      var r := records[0];
      var after := Frames(records[1..]) + rest;
      assert Frames(payloads) == Frame(r) + after;
      FirstFrame(payloads, r, after);
      FramesLeft(payloads[1..], records[1..], rest);
      assert payloads[1..][|records[1..]|..] == payloads[|records|..];
    }
  }

  lemma FirstFrame(payloads: seq<Record>, r: Record, after: seq<Byte>)
    requires Framable(payloads) && |r| < UINT32_LIMIT && Frames(payloads) == Frame(r) + after
    ensures payloads != [] && payloads[0] == r && Frames(payloads[1..]) == after
  {
    var p, tail := payloads[0], Frames(payloads[1..]);
    assert Frame(p) + tail == Header(|p|) + (p + tail);
    assert Frame(r) + after == Header(|r|) + (r + after);
    HeaderLength(|p|, p + tail);
    HeaderLength(|r|, r + after);
    assert p + tail == (Frame(p) + tail)[HEADER_SIZE..] == (Frame(r) + after)[HEADER_SIZE..] == r + after;
    assert p == (p + tail)[..|p|] == r && tail == (p + tail)[|p|..] == after;
  }

  lemma FramesHeader(payloads: seq<Record>, limit: nat, buffered: seq<Byte>, unread: seq<Byte>)
    requires limit < UINT32_LIMIT && forall r :: r in payloads ==> |r| <= limit
    requires Frames(payloads) == buffered + unread && |buffered| >= HEADER_SIZE
    ensures Length(buffered) <= limit
  {
    assert payloads != [];
    var r := payloads[0];
    HeaderLength(|r|, r + Frames(payloads[1..]));
    assert Frames(payloads) == Header(|r|) + (r + Frames(payloads[1..]));
    assert Length(buffered) == Length(buffered + unread);
  }

  lemma ParseAllFrames(payloads: seq<Record>)
    requires Framable(payloads)
    ensures Parse(Frames(payloads)) == payloads
  {
    ParseFrames(payloads, []);
    assert Frames(payloads) + [] == Frames(payloads);
  }

  // Less than a frame is no record.
  lemma LessThanAFrame(r: Record, n: nat)
    requires |r| < UINT32_LIMIT && n < |Frame(r)|
    ensures !Complete(Frame(r)[..n])
  {
    if n >= HEADER_SIZE {
      HeaderLength(|r|, r[..n - HEADER_SIZE]);
      assert Frame(r)[..n] == Header(|r|) + r[..n - HEADER_SIZE];
    }
  }

  /** The stream a client has been sent: these records, and behind them nothing,
      or less than a record on a closed descriptor. */
  ghost predicate SentSoFar(sent: seq<Byte>, done: seq<Record>, open: bool) {
    Framable(done) && exists tail :: Behind(sent, done, tail, open)
  }

  ghost predicate Behind(sent: seq<Byte>, done: seq<Record>, tail: seq<Byte>, open: bool)
    requires Framable(done)
  {
    sent == Frames(done) + tail && !Complete(tail) && (open ==> tail == [])
  }

  // One more response, whatever becomes of it.
  method SendOne(fd: Sink, r: Record, ghost done: seq<Record>) returns (ok: bool)
    requires SentSoFar(fd.sent, done, fd.open)
    modifies fd
    ensures SentSoFar(fd.sent, if ok then done + [r] else done, fd.open)
    ensures old(fd.Healthy()) ==> fd.Healthy() && (ok <==> |r| <= MAX_COMMAND_BYTES)
  {
    ghost var open, was := fd.open, fd.sent;
    if open { OpenIsWhole(was, done, open); }
    ok := SendResponseRaw(fd, r);
    if ok {
      WholeMore(was, fd.sent, done, r);
    } else if open && |r| <= MAX_COMMAND_BYTES {
      LessBehind(was, fd.sent, done, r);
    }
  }

  lemma OpenIsWhole(sent: seq<Byte>, done: seq<Record>, open: bool)
    requires SentSoFar(sent, done, open) && open
    ensures sent == Frames(done)
  {
    var tail :| Behind(sent, done, tail, open);
    assert Frames(done) + [] == Frames(done);
  }

  lemma WholeMore(was: seq<Byte>, now: seq<Byte>, done: seq<Record>, r: Record)
    requires Framable(done) && |r| < UINT32_LIMIT && was == Frames(done) && now == was + Frame(r)
    ensures SentSoFar(now, done + [r], true)
  {
    FramesSnoc(done, r);
    assert now == Frames(done + [r]) + [];
    assert Behind(now, done + [r], [], true);
  }

  lemma LessBehind(was: seq<Byte>, now: seq<Byte>, done: seq<Record>, r: Record)
    requires Framable(done) && |r| < UINT32_LIMIT && was == Frames(done) && SentLess(was, now, Frame(r))
    ensures SentSoFar(now, done, false)
  {
    var n: nat :| n < |Frame(r)| && now == was + Frame(r)[..n];
    LessThanAFrame(r, n);
    assert Behind(now, done, Frame(r)[..n], false);
  }

  // The payloads whose sending was reported a success.
  function Reported(payloads: seq<Record>, oks: seq<bool>): seq<Record>
    requires |payloads| == |oks|
  {
    if payloads == [] then []
    else
      var n := |payloads| - 1;
      Reported(payloads[..n], oks[..n]) + (if oks[n] then [payloads[n]] else [])
  }

  /** Responses sent one after another, none stopped by the failure of another:
      what the client can parse is exactly the ones reported as sent; and if no
      write fails these are the ones that are not too large. */
  method SendEach(fd: Sink, payloads: seq<Record>) returns (oks: seq<bool>)
    requires fd.sent == []
    modifies fd
    ensures |oks| == |payloads| && Parse(fd.sent) == Reported(payloads, oks)
    ensures old(fd.Healthy()) ==> SizesTell(payloads, oks)
  {
    oks := [];
    ghost var done: seq<Record> := [];
    NothingSent(fd.open);
    while |oks| < |payloads|
      invariant Tallied(payloads, oks, done) && SentSoFar(fd.sent, done, fd.open)
      invariant old(fd.Healthy()) ==> fd.Healthy() && SizesTell(payloads, oks)
      decreases |payloads| - |oks|
    {
      oks, done := SendNext(fd, payloads, oks, done);
    }
    assert payloads[..|payloads|] == payloads;
    ParseOfSent(fd.sent, done, fd.open);
  }

  // So many outcomes, and the payloads they report as sent.
  ghost predicate Tallied(payloads: seq<Record>, oks: seq<bool>, done: seq<Record>) {
    |oks| <= |payloads| && done == Reported(payloads[..|oks|], oks)
  }

  /** A payload was sent exactly if it is not too large. */
  ghost predicate SizesTell(payloads: seq<Record>, oks: seq<bool>) {
    |oks| <= |payloads| && forall i :: 0 <= i < |oks| ==> oks[i] == (|payloads[i]| <= MAX_COMMAND_BYTES)
  }

  // One turn of that.
  method SendNext(fd: Sink, payloads: seq<Record>, oks: seq<bool>, ghost done: seq<Record>) returns (oks': seq<bool>, ghost done': seq<Record>)
    requires |oks| < |payloads| && SentSoFar(fd.sent, done, fd.open) && Tallied(payloads, oks, done)
    modifies fd
    ensures |oks'| == |oks| + 1 && SentSoFar(fd.sent, done', fd.open) && Tallied(payloads, oks', done')
    ensures old(fd.Healthy()) && SizesTell(payloads, oks) ==> fd.Healthy() && SizesTell(payloads, oks')
  {
    var ok := SendOne(fd, payloads[|oks|], done);
    TalliedMore(payloads, oks, done, ok);
    if ok == (|payloads[|oks|]| <= MAX_COMMAND_BYTES) && SizesTell(payloads, oks) { SizesTellMore(payloads, oks, ok); }
    done' := if ok then done + [payloads[|oks|]] else done;
    oks' := oks + [ok];
  }

  lemma TalliedMore(payloads: seq<Record>, oks: seq<bool>, done: seq<Record>, ok: bool)
    requires |oks| < |payloads| && Tallied(payloads, oks, done)
    ensures Tallied(payloads, oks + [ok], if ok then done + [payloads[|oks|]] else done)
  {
    var n := |oks|;
    assert payloads[..n + 1][..n] == payloads[..n] && (oks + [ok])[..n] == oks;
  }

  lemma SizesTellMore(payloads: seq<Record>, oks: seq<bool>, ok: bool)
    requires |oks| < |payloads| && SizesTell(payloads, oks)
    requires ok == (|payloads[|oks|]| <= MAX_COMMAND_BYTES)
    ensures SizesTell(payloads, oks + [ok])
  {}

  lemma NothingSent(open: bool)
    ensures SentSoFar([], [], open)
  {
    assert Behind([], [], [], open);
  }

  // Less than a record behind them adds nothing to the parse.
  lemma ParseOfSent(sent: seq<Byte>, done: seq<Record>, open: bool)
    requires SentSoFar(sent, done, open)
    ensures Parse(sent) == done
  {
    var tail :| Behind(sent, done, tail, open);
    ParseFrames(done, tail);
    NothingComplete(tail);
    assert done + [] == done;
  }

  /** Payloads of at most MAX_COMMAND_BYTES sent by sendResponseRaw over any
      partial writes, and received over any short or failing reads: never
      refused, always in order, and recovered exactly by rounds enough.  Unless a
      write fails they are all sent. */
  method EndToEnd(payloads: seq<Record>, writes: seq<WriteOutcome>, arrivals: seq<ReadOutcome>, rounds: nat)
      returns (sentAll: bool, records: seq<Record>, refused: bool, unreadLeft: seq<Byte>)
    requires forall r :: r in payloads ==> |r| <= MAX_COMMAND_BYTES
    ensures Broken !in writes ==> sentAll
    ensures sentAll ==> records <= payloads && !refused
    ensures sentAll && rounds > 0 && unreadLeft == [] ==> records == payloads
    ensures sentAll && rounds > |Frames(payloads)| + |arrivals| ==> records == payloads && unreadLeft == []
  {
    var sink := new Sink(writes);
    sentAll := SendAll(sink, payloads);
    if !sentAll {
      return sentAll, [], false, [];
    }
    assert sink.sent == Frames(payloads);
    var source := new Source(sink.sent, arrivals);
    var rs := new RecordReader(source, MAX_COMMAND_BYTES);
    records, refused := Run(rs, rounds);
    unreadLeft := source.unread;
    FramesLeft(payloads, records, rs.Remaining());
    if |rs.Buffered()| >= HEADER_SIZE {
      FramesHeader(payloads[|records|..], MAX_COMMAND_BYTES, rs.Buffered(), source.unread);
    }
    ParseAllFrames(payloads);
  }
}
