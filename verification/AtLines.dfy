/** The pending response in memory: the singly linked intermediate lines that
    the reader pushes at the head and the command thread turns around in place
    (addIntermediate, processLine and reverseIntermediates in
    reference-ril/atchannel.c). */
module AtLines {
  import opened Basics
  import opened AtCommand

  class ATLine {
    const line: string
    var next: ATLine?

    constructor (line: string, next: ATLine?)
      ensures this.line == line && this.next == next
    {
      this.line := line;
      this.next := next;
    }
  }

  /** The nodes reached from p, in order. */
  ghost predicate Linked(p: ATLine?, nodes: seq<ATLine>)
    reads nodes
  {
    && p == NodeAt(nodes, 0)
    && (forall i :: 0 <= i < |nodes| ==> nodes[i].next == NodeAt(nodes, i + 1))
    && (forall i, j :: 0 <= i < j < |nodes| ==> nodes[i] != nodes[j])
  }

  function NodeAt(nodes: seq<ATLine>, i: nat): ATLine? {
    if i < |nodes| then nodes[i] else null
  }

  function LinesOf(nodes: seq<ATLine>): (r: seq<string>)
    ensures |r| == |nodes|
    ensures forall i :: 0 <= i < |nodes| ==> r[i] == nodes[i].line
  {
    if nodes == [] then [] else [nodes[0].line] + LinesOf(nodes[1..])
  }

  lemma {:induction false} LinesOfReverse(nodes: seq<ATLine>)
    ensures LinesOf(Reverse(nodes)) == Reverse(LinesOf(nodes))
  {
    if nodes != [] {
      LinesOfReverse(nodes[1..]);
      LinesOfAppend(Reverse(nodes[1..]), nodes[0]);
      assert LinesOf(nodes)[1..] == LinesOf(nodes[1..]);
    }
  }

  lemma LinesOfAppend(nodes: seq<ATLine>, n: ATLine)
    ensures LinesOf(nodes + [n]) == LinesOf(nodes) + [n.line]
  {}

  class ATResponse {
    var success: bool
    var finalResponse: Option<string>
    var intermediates: ATLine?
    ghost var nodes: seq<ATLine>

    ghost predicate Valid()
      reads this, nodes
    {
      Linked(intermediates, nodes)
    }

    /** The value this object stands for. */
    ghost function Value(): Response
      reads this
    {
      Response(success, finalResponse, LinesOf(nodes))
    }

    /** at_response_new */
    constructor ()
      ensures Valid() && Value() == NEW_RESPONSE && nodes == []
    {
      success := false;
      finalResponse := None;
      intermediates := null;
      nodes := [];
    }

    /** addIntermediate */
    method Add(line: string)
      requires Valid()
      modifies this`intermediates, this`nodes
      ensures Valid() && |nodes| > 0 && fresh(nodes[0]) && nodes[1..] == old(nodes)
      ensures Value() == old(Value()).(stored := [line] + old(Value().stored))
    {
      var n := new ATLine(line, intermediates);
      intermediates := n;
      nodes := [n] + nodes;
      assert nodes[1..] == old(nodes);
    }

    /** reverseIntermediates: the same nodes, each now before its predecessor. */
    method ReverseIntermediates()
      requires Valid()
      modifies this`intermediates, this`nodes, nodes
      ensures Valid() && nodes == Reverse(old(nodes))
      ensures Value() == old(Value()).(stored := Reverse(old(Value().stored)))
    {
      ghost var all := nodes;
      var first := intermediates;
      intermediates := null;
      intermediates := TurnAround(first, intermediates, all);
      nodes := Reverse(all);
    }
  }

  // The loop of reverseIntermediates, onto a list that is still empty.
  method TurnAround(first: ATLine?, empty: ATLine?, ghost all: seq<ATLine>) returns (head: ATLine?)
    requires Linked(first, all) && empty == null
    modifies all
    ensures Linked(head, Reverse(all))
    ensures forall n :: n in Reverse(all) ==> n in all
    ensures LinesOf(Reverse(all)) == Reverse(LinesOf(all))
  {
    var cur := first;
    head := empty;
    ghost var i := 0;
    while cur != null
      invariant 0 <= i <= |all| && cur == NodeAt(all, i)
      invariant head == NodeBefore(all, i)
      invariant forall k :: i <= k < |all| ==> all[k].next == NodeAt(all, k + 1)
      invariant forall k :: 0 <= k < i ==> all[k].next == NodeBefore(all, k)
      decreases |all| - i
    {
      var next := cur.next;
      cur.next := head;
      head := cur;
      cur := next;
      i := i + 1;
    }
    ReversedLinked(all);
    LinesOfReverse(all);
  }

  // Links that point backwards are a list of the reversed nodes.
  lemma ReversedLinked(all: seq<ATLine>)
    requires forall i, j :: 0 <= i < j < |all| ==> all[i] != all[j]
    requires forall k :: 0 <= k < |all| ==> all[k].next == NodeBefore(all, k)
    ensures Linked(NodeBefore(all, |all|), Reverse(all))
    ensures forall n :: n in Reverse(all) ==> n in all
  {
    ReverseAt(all);
    var r := Reverse(all);
    forall i | 0 <= i < |r| ensures r[i].next == NodeAt(r, i + 1) {
      assert r[i] == all[|all| - 1 - i];
    }
  }

  function NodeBefore(nodes: seq<ATLine>, i: nat): ATLine?
    requires i <= |nodes|
  {
    if i == 0 then null else nodes[i - 1]
  }

  lemma {:induction false} ReverseAt<T>(s: seq<T>)
    ensures forall i :: 0 <= i < |s| ==> Reverse(s)[i] == s[|s| - 1 - i]
  {
    if s != [] { ReverseAt(s[1..]); }
  }

  /** The channel's statics; `slot` is sp_response. */
  class AtChannel {
    var slot: ATResponse?
    var ty: CommandType
    var prefix: string
    var pdu: Option<string>
    var unsolicited: seq<string>  // what the handler has been given
    var pdusWritten: seq<string>

    ghost predicate Valid()
      reads this, slot, if slot == null then {} else set n | n in slot.nodes
    {
      slot != null ==> slot.Valid()
    }

    /** The value of the channel, on which the protocol is stated. */
    ghost function Value(): Channel
      reads this, slot
    {
      Channel(if slot == null then None else Some(slot.Value()), ty, prefix, pdu, unsolicited, pdusWritten)
    }

    constructor ()
      ensures Valid() && Value() == Channel(None, NoResult, "", None, [], [])
    {
      slot, ty, prefix, pdu := null, NoResult, "", None;
      unsolicited, pdusWritten := [], [];
    }

    method HandleUnsolicited(line: string)
      modifies this`unsolicited
      ensures unsolicited == old(unsolicited) + [line]
    {
      unsolicited := unsolicited + [line];
    }

    // An intermediate line of the pending response.
    method Accept(line: string)
      requires Valid() && slot != null
      modifies slot
      ensures Valid() && Value() == AddIntermediate(old(Value()), line)
      ensures forall n :: n in slot.nodes ==> n in old(slot.nodes) || fresh(n)
    {
      slot.Add(line);
    }

    // By the type of the command: an intermediate line, or an unsolicited one.
    method Route(line: string)
      requires Valid() && slot != null && !IsFinal(line) && !(pdu.Some? && line == PROMPT)
      modifies this`unsolicited, slot
      ensures Valid() && Value() == Process(old(Value()), line)
      ensures forall n :: n in slot.nodes ==> n in old(slot.nodes) || fresh(n)
    {
      var first := slot.intermediates == null;
      assert first <==> slot.Value().stored == [];
      var accepted :=
        match ty
        case NoResult => false
        case Numeric => first && StartsWithDigit(line)
        case SingleLine => first && StartsWith(line, prefix)
        case MultiLine => StartsWith(line, prefix);
      if accepted {
        Accept(line);
      } else {
        HandleUnsolicited(line);
      }
    }

    // handleFinalResponse, and the class of the line
    method Finalise(line: string, success: bool)
      requires Valid() && slot != null
      modifies slot`success, slot`finalResponse
      ensures Valid() && Value() == Finish(old(Value()), line, success)
    {
      slot.success := success;
      slot.finalResponse := Some(line);
    }

    /** processLine, under the command mutex. */
    method ProcessLine(line: string)
      requires Valid()
      modifies this, slot
      ensures Valid() && slot == old(slot)
      ensures Value() == Process(old(Value()), line)
      ensures slot != null ==> forall n :: n in slot.nodes ==> n in old(slot.nodes) || fresh(n)
    {
      if slot == null {
        HandleUnsolicited(line);
      } else if IsSuccess(line) {
        Finalise(line, true);
      } else if IsError(line) {
        Finalise(line, false);
      } else if pdu.Some? && line == PROMPT {
        pdusWritten := pdusWritten + [pdu.value];
        pdu := None;
      } else {
        Route(line);
      }
    }

    // A fresh response in the slot.
    method Open(c: Command) returns (r: ATResponse)
      requires slot == null
      modifies this
      ensures Valid() && slot == r && fresh(r) && r.nodes == []
      ensures Value() == Opened(old(Value()), c)
    {
      r := new ATResponse();
      slot, ty, prefix, pdu := r, c.ty, c.prefix, c.pdu;
    }

    // Lines that arrive one after another.
    method ProcessLines(lines: seq<string>)
      requires Valid()
      modifies this, slot
      ensures Valid() && slot == old(slot)
      ensures Value() == ProcessAll(old(Value()), lines)
      ensures slot != null ==> forall n :: n in slot.nodes ==> n in old(slot.nodes) || fresh(n)
    {
      for i := 0 to |lines|
        invariant slot == old(slot) && Valid()
        invariant Value() == ProcessAll(old(Value()), lines[..i])
        invariant slot != null ==> forall n :: n in slot.nodes ==> n in old(slot.nodes) || fresh(n)
      {
        ProcessLine(lines[i]);
        assert lines[..i + 1][..i] == lines[..i];
      }
      assert lines[..|lines|] == lines;
    }

    // A fresh response, and the lines that arrive for it.
    method Gather(c: Command, lines: seq<string>) returns (r: ATResponse)
      requires slot == null
      modifies this
      ensures slot == r && r.Valid() && fresh(r) && fresh(set n | n in r.nodes)
      ensures Answered(c, lines, r.Value())
      ensures pdusWritten == old(pdusWritten) + (if PROMPT in lines && c.pdu.Some? then [c.pdu.value] else [])
    {
      ghost var before := Value();
      r := Open(c);
      ProcessLines(lines);
      ProcessAllAnswers(before, c, lines);
    }

    /** What follows the wait loop: the response, turned around, to the caller,
        and nothing pending any more. */
    method HandBack(r: ATResponse, ghost c: Command, ghost lines: seq<string>)
      requires slot == r && r.Valid() && Answered(c, lines, r.Value())
      modifies this`slot, this`prefix, this`pdu, r, r.nodes
      ensures r.Valid() && slot == null && prefix == "" && pdu.None?
      ensures Due(c, lines, r.Value())
    {
      ReverseTwice(r.Value().stored);
      r.ReverseIntermediates();
      slot, prefix, pdu := null, "", None;
    }

    /** A whole command under the reader: the slot filled, any lines processed,
        and the list turned around for the caller, who gets what the command is
        due (..._nolock without the waiting). */
    method Serve(c: Command, lines: seq<string>) returns (r: ATResponse)
      requires slot == null
      modifies this
      ensures r.Valid() && fresh(r) && Due(c, lines, r.Value())
      ensures slot == null && prefix == "" && pdu.None?
      ensures pdusWritten == old(pdusWritten) + (if PROMPT in lines && c.pdu.Some? then [c.pdu.value] else [])
    {
      r := Gather(c, lines);
      HandBack(r, c, lines);
    }
  }

  lemma ReverseTwice<T>(s: seq<T>)
    ensures Reverse(Reverse(s)) == s
  {
    ReverseAt(s);
    ReverseAt(Reverse(s));
  }
}
