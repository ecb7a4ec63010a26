/** The request bookkeeping of libril/ril.cpp: the pending list, command
    records, completions and their responses. */
module Requests {
  import opened Basics
  import opened Descriptors
  import opened ParcelFormat
  import opened Parcels
  import opened ParcelRoundTrip
  import opened RecordStream
  import opened Timers
  import IntMarshal
  import StringMarshal

  const RESPONSE_SOLICITED: Int32 := 0
  const E_SUCCESS: Int32 := 0
  const E_RADIO_NOT_AVAILABLE: Int32 := 1
  const E_GENERIC_FAILURE: Int32 := 2
  const E_REQUEST_NOT_SUPPORTED: Int32 := 6

  const SECOND_REQUEST_BASE: int := 200
  const IMS_REQUEST_BASE: int := 500
  const CUS_REQUEST_BASE: int := 2000

  /** An entry of a command table: the request it is for, and whether it has a
      dispatch function. */
  datatype CommandInfo = CommandInfo(requestNumber: int, dispatches: bool)

  class RequestInfo {
    const token: Int32
    const pCI: CommandInfo
    var next: RequestInfo?
    var cancelled: bool
    var local: bool

    // calloc, and the fields processCommandBuffer fills in
    constructor (token: Int32, pCI: CommandInfo)
      ensures this.token == token && this.pCI == pCI
      ensures !cancelled && !local
    {
      this.token := token;
      this.pCI := pCI;
      next := null;
      cancelled, local := false, false;
    }
  }

  // ---------------------------------------------------------------- the pending list

  ghost predicate Distinct(nodes: seq<RequestInfo>) {
    forall i, j :: 0 <= i < j < |nodes| ==> nodes[i] != nodes[j]
  }

  function At(nodes: seq<RequestInfo>, i: nat): RequestInfo? {
    if i < |nodes| then nodes[i] else null
  }

  ghost predicate LinkedAt(nodes: seq<RequestInfo>, i: nat, succ: nat)
    requires i < |nodes|
    reads nodes`next
  {
    nodes[i].next == At(nodes, succ)
  }

  /** The nodes from head on, in order, to the null pointer. */
  ghost predicate Chain(head: RequestInfo?, nodes: seq<RequestInfo>)
    reads nodes`next
  {
    && head == At(nodes, 0) && Distinct(nodes)
    && forall i, j | 0 <= i < |nodes| && j == i + 1 :: LinkedAt(nodes, i, j)
  }

  /** The list without the request r. */
  function Without(nodes: seq<RequestInfo>, r: RequestInfo?): seq<RequestInfo> {
    if nodes == [] then []
    else if nodes[0] == r then nodes[1..]
    else [nodes[0]] + Without(nodes[1..], r)
  }

  lemma {:induction false} WithoutNone(nodes: seq<RequestInfo>, r: RequestInfo?)
    requires r !in nodes
    ensures Without(nodes, r) == nodes
  {
    if nodes != [] { WithoutNone(nodes[1..], r); }
  }

  lemma {:induction false} WithoutIsRemove(nodes: seq<RequestInfo>, r: RequestInfo, k: nat)
    requires k < |nodes| && nodes[k] == r && r !in nodes[..k]
    ensures Without(nodes, r) == Remove(nodes, k)
  {
    if k > 0 {
      assert nodes[0] in nodes[..k];
      assert nodes[1..][..k - 1] == nodes[..k][1..];
      WithoutIsRemove(nodes[1..], r, k - 1);
    }
  }

  /** In a list without repetitions r goes, and nothing else. */
  lemma {:induction false} WithoutMembers(nodes: seq<RequestInfo>, r: RequestInfo?)
    requires Distinct(nodes)
    ensures r !in Without(nodes, r)
    ensures forall x :: x in Without(nodes, r) <==> x in nodes && x != r
    ensures forall i :: 0 <= i < |Without(nodes, r)| ==> Without(nodes, r)[i] in nodes
  {
    if nodes != [] {
      assert nodes[0] !in nodes[1..];
      if nodes[0] != r {
        WithoutMembers(nodes[1..], r);
      }
    }
  }

  class PendingRequests {
    var head: RequestInfo?             // s_pendingRequests
    ghost var list: seq<RequestInfo>

    ghost predicate Valid()
      reads this, list`next
    {
      Chain(head, list)
    }

    constructor ()
      ensures Valid() && list == []
    {
      head := null;
      list := [];
    }

    method Push(pRI: RequestInfo)
      requires Valid() && pRI !in list
      modifies this, pRI`next
      ensures Valid() && list == [pRI] + old(list)
    {
      ghost var was := list;
      pRI.next := head;
      head := pRI;
      list := [pRI] + list;
      forall i, j | 0 <= i < |list| && j == i + 1 ensures LinkedAt(list, i, j) {
        if i > 0 { assert old(LinkedAt(was, i - 1, i)); }
      }
    }

    // *ppCur = (*ppCur)->p_next, at node k
    method Unlink(before: RequestInfo?, cur: RequestInfo, ghost k: nat)
      requires Valid() && k < |list| && list[k] == cur
      requires before == if k == 0 then null else list[k - 1]
      modifies this, list`next
      ensures Valid() && list == Remove(old(list), k)
    {
      ghost var was := list;
      assert LinkedAt(was, k, k + 1);
      if before == null {
        head := cur.next;
      } else {
        before.next := cur.next;
      }
      list := Remove(list, k);
      forall i, j | 0 <= i < |list| && j == i + 1 ensures LinkedAt(list, i, j) {
        if i < k { assert old(LinkedAt(was, i, j)); } else { assert old(LinkedAt(was, j, j + 1)); }
      }
    }

    /** checkAndDequeueRequestInfo: finds the request, if it is pending, and takes
        it alone off the list. */
    method CheckAndDequeue(pRI: RequestInfo?) returns (found: bool)
      requires Valid()
      modifies this, list`next
      ensures Valid() && list == Without(old(list), pRI)
      ensures found <==> pRI != null && pRI in old(list)
    {
      if pRI == null {
        WithoutNone(list, pRI);
        return false;
      }
      var before, cur := null, head;
      ghost var at: nat := 0;
      while cur != null
        invariant at <= |list| && cur == At(list, at) && list == old(list) && Valid()
        invariant before == if at == 0 then null else list[at - 1]
        invariant pRI !in list[..at]
        decreases |list| - at
      {
        if cur == pRI {
          WithoutIsRemove(list, pRI, at);
          Unlink(before, cur, at);
          return true;
        }
        assert LinkedAt(list, at, at + 1);
        before, cur := cur, cur.next;
        at := at + 1;
      }
      WithoutNone(list, pRI);
      found := false;
    }

    /** onCommandsSocketClosed */
    method CancelAll()
      requires Valid()
      modifies list`cancelled
      ensures Valid() && forall r :: r in list ==> r.cancelled
    {
      var cur := head;
      ghost var k := 0;
      while cur != null
        invariant 0 <= k <= |list| && cur == At(list, k)
        invariant forall i :: 0 <= i < k ==> list[i].cancelled
        decreases |list| - k
      {
        cur.cancelled := true;
        assert LinkedAt(list, k, k + 1);
        cur := cur.next;
        k := k + 1;
      }
    }
  }

  // ---------------------------------------------------------------- responses

  /** What the response function of a request writes, and what it returns. */
  datatype Payload = NoPayload | Payload(items: seq<Item>, ret: Int32)

  function ResultCode(e: Int32, payload: Payload): Int32 {
    if payload.Payload? && payload.ret != 0 then payload.ret else e
  }

  function PayloadItems(payload: Payload): seq<Item> {
    if payload.Payload? then payload.items else []
  }

  function ResponseItems(token: Int32, e: Int32, items: seq<Item>): seq<Item> {
    [I32(RESPONSE_SOLICITED), I32(token), I32(e)] + items
  }

  function HeadBytes(token: Int32, e: Int32): (b: seq<Byte>)
    ensures |b| == 12
  {
    Int32Bytes(RESPONSE_SOLICITED) + Int32Bytes(token) + Int32Bytes(e)
  }

  /** The bytes of a response: three words and a payload.  After an error of the
      response function the third word is the error, and what the function had
      written is still behind it. */
  function ResponseBytes(token: Int32, e: Int32, payload: Payload): (b: seq<Byte>)
    requires AllSized(PayloadItems(payload))
  {
    HeadBytes(token, ResultCode(e, payload)) + MarshalAll(PayloadItems(payload))
  }

  // A response of a size that fits a parcel.
  ghost predicate Fits(payload: Payload) {
    AllSized(PayloadItems(payload)) && Small(12 + |MarshalAll(PayloadItems(payload))|)
  }

  /** A reader of the items gets the words and the payload. */
  lemma ResponseIsItems(token: Int32, e: Int32, payload: Payload)
    requires Fits(payload)
    ensures var items := ResponseItems(token, ResultCode(e, payload), PayloadItems(payload));
            AllSized(items) && MarshalAll(items) == ResponseBytes(token, e, payload)
  {
    var code, rest := ResultCode(e, payload), PayloadItems(payload);
    var items := ResponseItems(token, code, rest);
    forall i | 0 <= i < |items| ensures Sized(items[i]) {
      if i >= 3 { assert Sized(rest[i - 3]); }
    }
    AllSizedSplit(items);
    assert items[1..] == [I32(token), I32(code)] + rest;
    AllSizedSplit(items[1..]);
    assert items[1..][1..] == [I32(code)] + rest;
    AllSizedSplit(items[1..][1..]);
    assert items[1..][1..][1..] == rest;
    assert MarshalAll(items[1..][1..]) == Int32Bytes(code) + MarshalAll(rest);
    JoinHead(Int32Bytes(RESPONSE_SOLICITED), Int32Bytes(token), Int32Bytes(code), MarshalAll(rest));
  }

  /** A client finds the kind of message, the token it sent and the result in the
      first three words. */
  lemma ResponseWords(token: Int32, e: Int32, payload: Payload)
    requires Fits(payload)
    ensures var b := ResponseBytes(token, e, payload);
            && |b| >= 12 && Int32Of(b[0..4]) == 0 && Int32Of(b[4..8]) == token
            && Int32Of(b[8..12]) == (if payload.Payload? && payload.ret != 0 then payload.ret else e)
            && b[12..] == MarshalAll(PayloadItems(payload))
  {
    var b, code := ResponseBytes(token, e, payload), ResultCode(e, payload);
    HeadWords(token, code, MarshalAll(PayloadItems(payload)));
    Int32RoundTrip(RESPONSE_SOLICITED);
    Int32RoundTrip(token);
    Int32RoundTrip(code);
  }

  lemma HeadWords(token: Int32, e: Int32, rest: seq<Byte>)
    ensures var b := HeadBytes(token, e) + rest;
            && b[0..4] == Int32Bytes(RESPONSE_SOLICITED) && b[4..8] == Int32Bytes(token)
            && b[8..12] == Int32Bytes(e) && b[12..] == rest
  {}

  lemma JoinHead(a: seq<Byte>, b: seq<Byte>, c: seq<Byte>, d: seq<Byte>)
    ensures a + (b + (c + d)) == a + b + c + d
  {}

  lemma SpliceHead(token: Int32, e: Int32, code: Int32, rest: seq<Byte>)
    ensures Splice(HeadBytes(token, e) + rest, 8, Int32Bytes(code)) == HeadBytes(token, code) + rest
  {}

  method WriteWord(p: Parcel, v: Int32)
    requires p.Valid() && p.mDataSize <= 8 && p.mDataPos == p.mDataSize && p.allocations == [] && p.Amortised()
    modifies p, p.mData
    ensures p.Valid() && p.allocations == [] && p.mDataPos == p.mDataSize && p.Amortised()
    ensures p.Contents() == old(p.Contents()) + Int32Bytes(v)
    ensures p.mData == old(p.mData) || (p.mData != null && fresh(p.mData))
  {
    ghost var written := WriteItem(p, I32(v));
  }

  // The three words.
  method WriteHead(p: Parcel, token: Int32, e: Int32)
    requires p.Valid() && p.Contents() == [] && p.allocations == [] && p.Amortised()
    modifies p, p.mData
    ensures p.Valid() && p.allocations == [] && p.mDataPos == p.mDataSize && p.Amortised()
    ensures p.Contents() == HeadBytes(token, e)
    ensures p.mData == old(p.mData) || (p.mData != null && fresh(p.mData))
  {
    WriteWord(p, RESPONSE_SOLICITED);
    assert p.Contents() == Int32Bytes(RESPONSE_SOLICITED);
    WriteWord(p, token);
    WriteWord(p, e);
  }

  // The payload, and on an error the word before it again.
  method WritePayload(p: Parcel, token: Int32, e: Int32, payload: Payload)
    requires p.Valid() && p.mDataPos == p.mDataSize && p.allocations == [] && p.Amortised()
    requires Fits(payload) && p.Contents() == HeadBytes(token, e)
    modifies p, p.mData
    ensures p.Valid() && p.Contents() == ResponseBytes(token, e, payload)
  {
    match payload {
      case NoPayload =>
      case Payload(items, ret) =>
        ghost var ok := WriteAll(p, items);
        // the error takes the place of the result
        if ret != 0 {
          SpliceHead(token, e, ret, MarshalAll(items));
          p.SetDataPosition(8);
          Rewrite(p, ret);
        }
    }
  }

  // A word over one that is there needs no room.
  method Rewrite(p: Parcel, ret: Int32)
    requires p.Valid() && p.mDataPos + 4 <= p.mDataSize
    modifies p, p.mData
    ensures p.Valid() && p.Wrote(old(p.Contents()), old(p.mDataPos), Int32Bytes(ret))
  {
    var err := p.WriteInt32(ret);
  }

  // The parcel of a response, whose allocations succeed.
  method BuildResponse(token: Int32, e: Int32, payload: Payload, sizeMax: nat) returns (bytes: seq<Byte>)
    requires sizeMax >= SIZE_MAX_32 && Fits(payload)
    ensures bytes == ResponseBytes(token, e, payload)
  {
    var p := new Parcel(sizeMax, []);
    WriteHead(p, token, e);
    WritePayload(p, token, e, payload);
    bytes := p.Contents();
  }

  /** `bytes` were sent as one record, or, if not ok, less than all of it; too
      long for a record, nothing was. */
  ghost predicate SentRecord(was: seq<Byte>, now: seq<Byte>, bytes: seq<Byte>, ok: bool) {
    if |bytes| > MAX_COMMAND_BYTES then !ok && now == was
    else if ok then now == was + Frame(bytes)
    else SentLess(was, now, Frame(bytes))
  }

  // One record or less of it; all of it on a descriptor that works.
  ghost predicate SentAtMost(was: seq<Byte>, now: seq<Byte>, bytes: seq<Byte>, works: bool) {
    SentRecord(was, now, bytes, true) || (!works && SentRecord(was, now, bytes, false))
  }

  // Whether a descriptor is open after that: a failed write closes it.
  predicate OpenAfter(was: bool, bytes: seq<Byte>, ok: bool) {
    was && (ok || |bytes| > MAX_COMMAND_BYTES)
  }

  method SendRecord(fd: Sink?, bytes: seq<Byte>) returns (ok: bool)
    modifies fd
    ensures fd == null ==> !ok
    ensures fd != null ==> SentRecord(old(fd.sent), fd.sent, bytes, ok) && fd.open == OpenAfter(old(fd.open), bytes, ok)
    ensures fd != null && !old(fd.open) ==> !ok && fd.sent == old(fd.sent)
    ensures fd != null && old(fd.Healthy()) ==> fd.Healthy() && (ok <==> |bytes| <= MAX_COMMAND_BYTES)
  {
    ok := SendResponseRaw(fd, bytes);
  }

  // ---------------------------------------------------------------- command records

  /** The four command tables. */
  datatype Tables = Tables(base: seq<CommandInfo>, second: seq<CommandInfo>, ims: seq<CommandInfo>, cus: seq<CommandInfo>) {
    ghost predicate Valid() {
      |base| <= SECOND_REQUEST_BASE && |second| <= 300 && |ims| <= 1500
    }

    function Table(table: nat): seq<CommandInfo> {
      match table
      case 0 => base
      case 1 => second
      case 2 => ims
      case _ => cus
    }

    /** What RIL_register checks: an entry's number is its index, from the start
        of the table's range. */
    ghost predicate Checked() {
      && (forall i :: 0 <= i < |base| ==> base[i].requestNumber == i)
      && (forall i :: 1 <= i < |second| ==> second[i].requestNumber == SECOND_REQUEST_BASE + i)
      && (forall i :: 1 <= i < |ims| ==> ims[i].requestNumber == IMS_REQUEST_BASE + i)
      && (forall i :: 1 <= i < |cus| ==> cus[i].requestNumber == CUS_REQUEST_BASE + i)
    }

    // The entry, which is not the empty one at its table's start, is for this
    // request.
    ghost predicate IsFor(table: nat, index: nat, request: int) {
      table < 4 && 0 < index < |Table(table)| && Table(table)[index].requestNumber == request
    }

    ghost predicate HasEntry(request: int) {
      exists table: nat, index: nat :: IsFor(table, index, request)
    }
  }

  // The first test on a request code.
  predicate Refused(t: Tables, request: int) {
    || request < 1
    || (request >= |t.base| && request <= SECOND_REQUEST_BASE)
    || (request >= SECOND_REQUEST_BASE + |t.second| && request <= IMS_REQUEST_BASE)
    || (request >= IMS_REQUEST_BASE + |t.ims| && request <= CUS_REQUEST_BASE)
    || request >= CUS_REQUEST_BASE + |t.cus|
  }

  /** The table and index that the second cascade of tests selects. */
  function Select(t: Tables, request: int): Option<(nat, nat)> {
    if 0 < request < |t.base| then Some((0, request))
    else if SECOND_REQUEST_BASE < request < SECOND_REQUEST_BASE + |t.second| then Some((1, request - SECOND_REQUEST_BASE))
    else if IMS_REQUEST_BASE < request < IMS_REQUEST_BASE + |t.ims| then Some((2, request - IMS_REQUEST_BASE))
    else if CUS_REQUEST_BASE < request < CUS_REQUEST_BASE + |t.cus| then Some((3, request - CUS_REQUEST_BASE))
    else None
  }

  /** A code that is not refused has an entry, so no request is without one; and
      the entry is inside its table, never the empty one at its start. */
  lemma RefusedOrSelected(t: Tables, request: int)
    requires t.Valid()
    ensures Refused(t, request) <==> Select(t, request).None?
    ensures var s := Select(t, request); s.Some? ==> s.value.0 < 4 && 0 < s.value.1 < |t.Table(s.value.0)|
  {
    var s := Select(t, request);
    if s.Some? { assert s.value.0 in {0, 1, 2, 3}; }
  }

  function SelectedEntry(t: Tables, request: int): CommandInfo
    requires t.Valid() && !Refused(t, request)
  {
    RefusedOrSelected(t, request);
    var (table, index) := Select(t, request).value;
    t.Table(table)[index]
  }

  /** In tables that pass the check a code selects the entry for its own request,
      and is refused exactly when there is none. */
  lemma SelectedIsFor(t: Tables, request: int)
    requires t.Valid() && t.Checked()
    ensures var s := Select(t, request); s.Some? ==> t.IsFor(s.value.0, s.value.1, request)
    ensures Refused(t, request) <==> !t.HasEntry(request)
  {
    RefusedOrSelected(t, request);
    var s := Select(t, request);
    if s.Some? {
      assert t.IsFor(s.value.0, s.value.1, request);
    }
    if t.HasEntry(request) {
      var table: nat, index: nat :| t.IsFor(table, index, request);
      assert table == 0 || table == 1 || table == 2 || table == 3;
    }
  }

  // The request code and the token of a command record.
  function Head(record: seq<Byte>): Option<(Int32, Int32)> {
    if |record| < 8 then None else Some((Int32Of(record[0..4]), Int32Of(record[4..8])))
  }

  /** A record of two words is a command, with nothing behind the words. */
  lemma TwoWordsAlone(request: Int32, token: Int32)
    ensures var record := Int32Bytes(request) + Int32Bytes(token);
            && Head(record) == Some((request, token))
            && StringMarshal.CountAt(record, 8).None? && StringAt(record, 8).0.None?
  {
    var record := Int32Bytes(request) + Int32Bytes(token);
    assert record[0..4] == Int32Bytes(request) && record[4..8] == Int32Bytes(token);
    Int32RoundTrip(request);
    Int32RoundTrip(token);
  }

  // Two words are read; the status that counts is that of the second.  Without
  // memory for the record's parcel there is nothing to read.
  method ReadHead(record: seq<Byte>, sizeMax: nat, parcelOk: bool) returns (head: Option<(Int32, Int32)>)
    requires sizeMax >= SIZE_MAX_32 && |record| <= INT32_MAX
    ensures head == if parcelOk then Head(record) else None
  {
    var p := new Parcel(sizeMax, if parcelOk then [] else [false]);
    var err := p.SetData(record);
    var request := p.ReadInt32();
    var token := p.ReadAligned(4);
    head := if token.None? then None else Some((request, Int32Of(token.value)));
  }

  /** What became of a command record. */
  datatype Processed = InvalidBlock | Unsupported(token: Int32) | NoMemoryFor(token: Int32) | NotSupported(token: Int32) | Dispatched(pRI: RequestInfo)

  datatype RadioState =
    | Off | Unavailable | SimNotReady | SimLockedOrAbsent | SimReady | RuimNotReady | RuimReady
    | RuimLockedOrAbsent | NvNotReady | NvReady | On

  const RADIO_TECH_UMTS: Int32 := 3
  const RADIO_TECH_1XRTT: Int32 := 6

  function DecodeVoiceRadioTechnology(state: RadioState): Int32 {
    match state
    case SimNotReady | SimLockedOrAbsent | SimReady => RADIO_TECH_UMTS
    case RuimNotReady | RuimReady | RuimLockedOrAbsent | NvNotReady | NvReady => RADIO_TECH_1XRTT
    case _ => -1
  }

  // What responseInts makes of the technology.
  function TechPayload(tech: Int32, ptr: nat): Payload
    requires ptr == 4 || ptr == 8
  {
    Payload(IntMarshal.ListItems(IntMarshal.Sent([tech], ptr)), 0)
  }

  /** The client reads one integer; with pointers of eight bytes, none. */
  lemma TechItems(tech: Int32, ptr: nat)
    requires ptr == 4 || ptr == 8
    ensures TechPayload(tech, ptr).items == if ptr == 4 then [I32(1), I32(tech)] else [I32(0)]
    ensures Fits(TechPayload(tech, ptr))
  {
    var ints := IntMarshal.Sent([tech], ptr);
    IntMarshal.SentWhole([tech], ptr);
    IntMarshal.ListSplit(ints);
    IntMarshal.WordsSize(ints);
  }

  class Server {
    const pending: PendingRequests
    const sizeMax: nat
    var fdCommand: Sink?               // s_fdCommand

    constructor (pending: PendingRequests, sizeMax: nat)
      requires pending.Valid() && sizeMax >= SIZE_MAX_32
      ensures Valid() && this.pending == pending && fdCommand == null
    {
      this.pending := pending;
      this.sizeMax := sizeMax;
      fdCommand := null;
    }

    ghost predicate Valid()
      reads this, pending, pending.list`next
    {
      pending.Valid() && sizeMax >= SIZE_MAX_32
    }

    // A completion of t is to be answered.
    ghost predicate Answerable(t: RequestInfo?)
      reads this, pending, t
    {
      t != null && t in pending.list && !t.local && !t.cancelled
    }

    /** What one completion of t does: t goes off the list, and if it was on it,
        not cancelled and not local, its response goes out, to the last byte if
        `answered`; which it is, on a descriptor that works, exactly when a record
        can hold the response. */
    twostate predicate Completed(t: RequestInfo?, e: Int32, payload: Payload, answered: bool)
      requires Fits(payload)
      reads this, pending, fdCommand
    {
      && fdCommand == old(fdCommand)
      && pending.list == Without(old(pending.list), t)
      && (answered ==> old(Answerable(t)) && fdCommand != null)
      && (fdCommand != null ==>
            if old(Answerable(t)) then
              var bytes := ResponseBytes(t.token, e, payload);
              && SentRecord(old(fdCommand.sent), fdCommand.sent, bytes, answered)
              && fdCommand.open == OpenAfter(old(fdCommand.open), bytes, answered)
              && (old(fdCommand.Healthy()) ==> fdCommand.Healthy() && (answered <==> |bytes| <= MAX_COMMAND_BYTES))
            else
              unchanged(fdCommand))
    }

    /** RIL_onRequestComplete */
    method OnRequestComplete(t: RequestInfo?, e: Int32, payload: Payload) returns (ghost answered: bool)
      requires Valid() && Fits(payload)
      modifies pending, pending.list`next, fdCommand
      ensures Valid() && Completed(t, e, payload, answered)
      ensures t !in pending.list && forall i :: 0 <= i < |pending.list| ==> pending.list[i] in old(pending.list)
    {
      WithoutMembers(pending.list, t);
      var found := pending.CheckAndDequeue(t);
      answered := false;
      if found && !t.local && !t.cancelled {
        var bytes := BuildResponse(t.token, e, payload, sizeMax);
        answered := SendRecord(fdCommand, bytes);
      }
    }

    /** listenCallback's part: the descriptor of a new connection. */
    method NewConnection(fd: Sink)
      requires Valid() && fdCommand == null
      modifies this`fdCommand
      ensures Valid() && fdCommand == fd && pending.list == old(pending.list)
    {
      fdCommand := fd;
    }

    /** The end of processCommandsCallback: from here on a request of this
        connection is not answered, whatever connection comes next. */
    method CloseCommands()
      requires Valid()
      modifies this`fdCommand, pending.list`cancelled
      ensures Valid() && fdCommand == null && pending.list == old(pending.list)
      ensures forall r :: r in pending.list ==> !Answerable(r)
    {
      fdCommand := null;
      pending.CancelAll();
    }

    // A request that is not on the list is not answered.
    lemma NotPending(t: RequestInfo?)
      requires t !in pending.list
      ensures Without(pending.list, t) == pending.list && !Answerable(t)
    {
      WithoutNone(pending.list, t);
    }

    // The second completion of a request changes nothing.
    method CompleteAgain(t: RequestInfo?, e: Int32, payload: Payload)
      requires Valid() && Fits(payload) && t !in pending.list
      modifies pending, pending.list`next, fdCommand
      ensures Valid() && pending.list == old(pending.list)
      ensures fdCommand != null ==> unchanged(fdCommand)
    {
      NotPending(t);
      ghost var answered := OnRequestComplete(t, e, payload);
    }

    /** A client goes, another comes, and only then is a request of the first one
        completed: the new client gets nothing of it. */
    method LateCompletion(t: RequestInfo, fd: Sink, e: Int32, payload: Payload)
      requires Valid() && Fits(payload) && t in pending.list
      modifies this`fdCommand, pending, pending.list`next, pending.list`cancelled, fd
      ensures Valid() && fdCommand == fd && fd.sent == old(fd.sent)
      ensures pending.list == Without(old(pending.list), t)
    {
      CloseCommands();
      NewConnection(fd);
      ghost var answered := OnRequestComplete(t, e, payload);
    }

    /** dispatchVoiceRadioTech: handed on when the radio is on; otherwise
        completed once, although with the radio off or unavailable there are two
        calls: with a SIM the technology is 3, UMTS, with a RUIM or its NV 6, 1xRTT. */
    method DispatchVoiceRadioTech(t: RequestInfo, state: RadioState, ptr: nat) returns (handedOn: bool, ghost answered: bool)
      requires Valid() && (ptr == 4 || ptr == 8)
      modifies pending, pending.list`next, fdCommand
      ensures Valid() && (handedOn <==> state.On?)
      ensures handedOn ==> pending.list == old(pending.list) && (fdCommand != null ==> fdCommand.sent == old(fdCommand.sent))
      ensures state.Off? || state.Unavailable? ==> Completed(t, E_RADIO_NOT_AVAILABLE, NoPayload, answered)
      ensures Fits(TechPayload(3, ptr)) && Fits(TechPayload(6, ptr))
      ensures state.SimNotReady? || state.SimLockedOrAbsent? || state.SimReady? ==>
                Completed(t, E_SUCCESS, TechPayload(3, ptr), answered)
      ensures state.RuimNotReady? || state.RuimReady? || state.RuimLockedOrAbsent? || state.NvNotReady? || state.NvReady? ==>
                Completed(t, E_SUCCESS, TechPayload(6, ptr), answered)
    {
      TechItems(3, ptr);
      TechItems(6, ptr);
      answered := false;
      if state.Off? || state.Unavailable? {
        answered := OnRequestComplete(t, E_RADIO_NOT_AVAILABLE, NoPayload);
      }
      if state.On? {
        return true, false;
      }
      handedOn := false;
      var voiceRadioTech := DecodeVoiceRadioTechnology(state);
      if voiceRadioTech < 0 {
        CompleteAgain(t, E_GENERIC_FAILURE, NoPayload);
      } else {
        answered := OnRequestComplete(t, E_SUCCESS, TechPayload(voiceRadioTech, ptr));
      }
    }

    /** requestEnableModem: completed once on every path; when the command fails
        that is as a failure, although a success is reported after it. */
    method RequestEnableModem(t: RequestInfo, data: Option<int>, sent: bool) returns (ghost answered: bool)
      requires Valid()
      modifies pending, pending.list`next, fdCommand
      ensures Valid()
      ensures Completed(t, if data.None? || (data.value == 0 && !sent) then E_GENERIC_FAILURE else E_SUCCESS, NoPayload, answered)
    {
      if data.None? {
        answered := OnRequestComplete(t, E_GENERIC_FAILURE, NoPayload);
        return;
      }
      if data.value == 0 && !sent {
        answered := OnRequestComplete(t, E_GENERIC_FAILURE, NoPayload);
        CompleteAgain(t, E_SUCCESS, NoPayload);
      } else {
        answered := OnRequestComplete(t, E_SUCCESS, NoPayload);
      }
    }

    /** A pending request whose parcel holds strings: handed to its handler, or
        not, and then nothing completes it.  The latter is exactly when the count
        is missing or there is no memory for the array. */
    method HandStrings(t: RequestInfo, p: Parcel, ptr: nat, callocOk: bool) returns (handed: bool)
      requires Valid() && t in pending.list && p.Valid()
      modifies p`mDataPos
      ensures Valid() && pending.list == old(pending.list)
      ensures fdCommand != null ==> fdCommand.sent == old(fdCommand.sent)
      ensures var count := StringMarshal.CountAt(old(p.Contents()), old(p.mDataPos));
              handed <==> count.Some? && (count.value < 0 || callocOk)
    {
      var r;
      ghost var at;
      r, at := StringMarshal.DispatchStrings(p, ptr, callocOk);
      handed := r.Handed?;
    }

    /** The same with one string: not handed exactly when it is missing or cannot
        be copied. */
    method HandString(t: RequestInfo, p: Parcel, mallocOk: bool) returns (handed: bool)
      requires Valid() && t in pending.list && p.Valid()
      modifies p`mDataPos
      ensures Valid() && pending.list == old(pending.list)
      ensures fdCommand != null ==> fdCommand.sent == old(fdCommand.sent)
      ensures handed <==> mallocOk && StringAt(old(p.Contents()), old(p.mDataPos)).0.Some?
    {
      var s := StringMarshal.StrdupReadString(p, mallocOk);
      handed := s.Some?;
    }

    /** A command record of its two words alone, for a request that needs strings
        or one string: never handed on, so that the request stays as it is. */
    method HandNothing(t: RequestInfo, token: Int32, request: Int32, list: bool, ptr: nat) returns (handed: bool)
      requires Valid() && t in pending.list
      ensures Valid() && pending.list == old(pending.list) && !handed
      ensures fdCommand != null ==> fdCommand.sent == old(fdCommand.sent)
    {
      TwoWordsAlone(request, token);
      var p := new Parcel(sizeMax, []);
      var err := p.SetData(Int32Bytes(request) + Int32Bytes(token));
      var first := p.ReadInt32();
      var second := p.ReadInt32();
      if list {
        handed := HandStrings(t, p, ptr, true);
      } else {
        handed := HandString(t, p, true);
      }
    }

    // sendResponse of an error that belongs to no pending request
    method SendError(token: Int32, e: Int32) returns (ok: bool)
      requires Valid()
      modifies fdCommand
      ensures fdCommand == null ==> !ok
      ensures fdCommand != null ==> SentRecord(old(fdCommand.sent), fdCommand.sent, ResponseBytes(token, e, NoPayload), ok)
      ensures fdCommand != null && old(fdCommand.Healthy()) ==> ok
    {
      var bytes := BuildResponse(token, e, NoPayload, sizeMax);
      ok := SendRecord(fdCommand, bytes);
    }

    // A request is entered, and completed at once if nothing dispatches it.
    method Enter(token: Int32, pCI: CommandInfo) returns (r: Processed)
      requires Valid()
      modifies pending, pending.list`next, fdCommand
      ensures Valid() && (r.Dispatched? || r == NotSupported(token)) && (r.Dispatched? <==> pCI.dispatches)
      ensures r.Dispatched? ==> fresh(r.pRI) && r.pRI.token == token && r.pRI.pCI == pCI && !r.pRI.cancelled && !r.pRI.local
      ensures r.Dispatched? ==> pending.list == [r.pRI] + old(pending.list)
      ensures r.Dispatched? && fdCommand != null ==> fdCommand.sent == old(fdCommand.sent)
      ensures r.NotSupported? ==> pending.list == old(pending.list)
      ensures r.NotSupported? && fdCommand != null ==>
                SentAtMost(old(fdCommand.sent), fdCommand.sent, ResponseBytes(token, E_REQUEST_NOT_SUPPORTED, NoPayload), old(fdCommand.Healthy()))
    {
      var pRI := new RequestInfo(token, pCI);
      pending.Push(pRI);
      if pCI.dispatches {
        return Dispatched(pRI);
      }
      label entered:
      ghost var ok := OnRequestComplete(pRI, E_REQUEST_NOT_SUPPORTED, NoPayload);
      r := NotSupported(token);
    }

    /** processCommandBuffer: a record is no command without two words, or
        without memory for a copy of it; a code
        outside the tables is answered without being entered; the others are
        entered at the head of the list, and either handed to their dispatch
        function or, lacking one, answered and taken off again. */
    method ProcessCommandBuffer(record: seq<Byte>, tables: Tables, parcelOk: bool, callocOk: bool)
        returns (r: Processed)
      requires Valid() && tables.Valid() && |record| <= INT32_MAX
      modifies pending, pending.list`next, fdCommand
      ensures Valid()
      ensures var head := if parcelOk then Head(record) else None;
              if head.None? then r == InvalidBlock
              else
                var (request, token) := head.value;
                if Refused(tables, request) then r == Unsupported(token)
                else if !callocOk then r == NoMemoryFor(token)
                else
                  var pCI := SelectedEntry(tables, request);
                  && (tables.Checked() ==> pCI.requestNumber == request)
                  && (if pCI.dispatches then r.Dispatched? && r.pRI.token == token && r.pRI.pCI == pCI else r == NotSupported(token))
      ensures r.Dispatched? ==> fresh(r.pRI) && !r.pRI.cancelled && !r.pRI.local && pending.list == [r.pRI] + old(pending.list)
      ensures !r.Dispatched? ==> pending.list == old(pending.list)
      ensures fdCommand != null && (r.InvalidBlock? || r.NoMemoryFor? || r.Dispatched?) ==> fdCommand.sent == old(fdCommand.sent)
      ensures fdCommand != null && (r.Unsupported? || r.NotSupported?) ==>
                SentAtMost(old(fdCommand.sent), fdCommand.sent,
                  ResponseBytes(r.token, if r.Unsupported? then E_GENERIC_FAILURE else E_REQUEST_NOT_SUPPORTED, NoPayload),
                  old(fdCommand.Healthy()))
    {
      var head := ReadHead(record, sizeMax, parcelOk);
      if head.None? {
        return InvalidBlock;
      }
      var (request, token) := head.value;
      RefusedOrSelected(tables, request);
      if Refused(tables, request) {
        var ok := SendError(token, E_GENERIC_FAILURE);
        return Unsupported(token);
      }
      if !callocOk {
        return NoMemoryFor(token);
      }
      if tables.Checked() { SelectedIsFor(tables, request); }
      r := Enter(token, SelectedEntry(tables, request));
    }
  }
}
