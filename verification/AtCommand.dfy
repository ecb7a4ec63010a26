/** The AT command channel's data: line classes, the pending response and what
    processLine does to it (reference-ril/atchannel.c; final results follow
    3GPP TS 27.007 annex B, the prompt TS 27.005 section 4.3). */
module AtCommand {
  import opened Basics

  datatype CommandType = NoResult | Numeric | SingleLine | MultiLine

  const PROMPT: string := "> "

  // strStartsWith
  predicate StartsWith(line: string, prefix: string) {
    prefix <= line
  }

  predicate IsError(line: string) {
    || StartsWith(line, "ERROR") || StartsWith(line, "+CMS ERROR:") || StartsWith(line, "+CME ERROR:")
    || StartsWith(line, "NO CARRIER") || StartsWith(line, "NO ANSWER") || StartsWith(line, "NO DIALTONE")
  }

  predicate IsSuccess(line: string) {
    StartsWith(line, "OK") || StartsWith(line, "CONNECT")
  }

  predicate IsFinal(line: string) {
    IsSuccess(line) || IsError(line)
  }

  lemma PrefixMeans(line: string, prefix: string)
    ensures StartsWith(line, prefix) <==> |line| >= |prefix| && line[..|prefix|] == prefix
  {}

  // One of these stands at the start of the line.
  predicate AnyOf(line: string, prefixes: seq<string>) {
    exists i :: 0 <= i < |prefixes| && |line| >= |prefixes[i]| && line[..|prefixes[i]|] == prefixes[i]
  }

  /** The final result codes, by their first characters; none is both a success
      and an error, and the prompt is neither. */
  lemma FinalResults(line: string)
    ensures IsSuccess(line) <==> AnyOf(line, ["OK", "CONNECT"])
    ensures IsError(line) <==>
              AnyOf(line, ["ERROR", "+CMS ERROR:", "+CME ERROR:", "NO CARRIER", "NO ANSWER", "NO DIALTONE"])
    ensures !(IsSuccess(line) && IsError(line)) && !IsFinal(['>', ' '])
  {
    var good := ["OK", "CONNECT"];
    var bad := ["ERROR", "+CMS ERROR:", "+CME ERROR:", "NO CARRIER", "NO ANSWER", "NO DIALTONE"];
    forall i | 0 <= i < 2 ensures StartsWith(line, good[i]) ==> AnyOf(line, good) { PrefixMeans(line, good[i]); }
    forall i | 0 <= i < 6 ensures StartsWith(line, bad[i]) ==> AnyOf(line, bad) { PrefixMeans(line, bad[i]); }
    assert good[0] == "OK" && good[1] == "CONNECT";
    assert bad[0] == "ERROR" && bad[1] == "+CMS ERROR:" && bad[2] == "+CME ERROR:";
    assert bad[3] == "NO CARRIER" && bad[4] == "NO ANSWER" && bad[5] == "NO DIALTONE";
    FirstCharacters(line);
    FirstCharacters(['>', ' ']);
  }

  lemma FirstCharacters(line: string)
    ensures IsSuccess(line) ==> line[0] == 'O' || line[0] == 'C'
    ensures IsError(line) ==> line[0] == 'E' || line[0] == '+' || line[0] == 'N'
  {
    assert "OK"[0] == 'O' && "CONNECT"[0] == 'C' && "ERROR"[0] == 'E' && "+CMS ERROR:"[0] == '+' && "+CME ERROR:"[0] == '+';
    assert "NO CARRIER"[0] == 'N' && "NO ANSWER"[0] == 'N' && "NO DIALTONE"[0] == 'N';
  }

  /** A numeric answer begins with one of the ten digits. */
  lemma DigitMeans(line: string)
    ensures StartsWithDigit(line) <==> line != "" && line[0] in "0123456789"
  {}

  predicate StartsWithDigit(line: string) {
    line != "" && '0' <= line[0] <= '9'
  }

  /** An ATResponse; the intermediate lines are stored latest first. */
  datatype Response = Response(success: bool, final: Option<string>, stored: seq<string>)

  const NEW_RESPONSE: Response := Response(false, None, [])

  /** The statics a line can change, the unsolicited handler's input and the
      PDUs written so far. */
  datatype Channel = Channel(
    slot: Option<Response>, ty: CommandType, prefix: string, pdu: Option<string>,
    unsolicited: seq<string>, pdusWritten: seq<string>)

  function Unsolicited(ch: Channel, line: string): Channel {
    ch.(unsolicited := ch.unsolicited + [line])
  }

  function Finish(ch: Channel, line: string, success: bool): Channel
    requires ch.slot.Some?
  {
    ch.(slot := Some(ch.slot.value.(success := success, final := Some(line))))
  }

  function AddIntermediate(ch: Channel, line: string): Channel
    requires ch.slot.Some?
  {
    ch.(slot := Some(ch.slot.value.(stored := [line] + ch.slot.value.stored)))
  }

  /** processLine */
  function Process(ch: Channel, line: string): Channel {
    if ch.slot.None? then Unsolicited(ch, line)
    else if IsSuccess(line) then Finish(ch, line, true)
    else if IsError(line) then Finish(ch, line, false)
    else if ch.pdu.Some? && line == PROMPT then
      ch.(pdusWritten := ch.pdusWritten + [ch.pdu.value], pdu := None)
    else match ch.ty
      case NoResult => Unsolicited(ch, line)
      case Numeric =>
        if ch.slot.value.stored == [] && StartsWithDigit(line) then AddIntermediate(ch, line) else Unsolicited(ch, line)
      case SingleLine =>
        if ch.slot.value.stored == [] && StartsWith(line, ch.prefix) then AddIntermediate(ch, line) else Unsolicited(ch, line)
      case MultiLine =>
        if StartsWith(line, ch.prefix) then AddIntermediate(ch, line) else Unsolicited(ch, line)
  }

  // ---------------------------------------------------------------- what a command should get

  /** What a command asks for. */
  datatype Command = Command(ty: CommandType, prefix: string, pdu: Option<string>)

  // The channel as a command finds it when its response has just been made.
  function Opened(ch: Channel, c: Command): Channel {
    ch.(slot := Some(NEW_RESPONSE), ty := c.ty, prefix := c.prefix, pdu := c.pdu)
  }

  function ProcessAll(ch: Channel, lines: seq<string>): Channel {
    if lines == [] then ch else Process(ProcessAll(ch, lines[..|lines| - 1]), lines[|lines| - 1])
  }

  // The line is the prompt this command's PDU was waiting for.
  predicate Prompts(c: Command, before: seq<string>, line: string) {
    c.pdu.Some? && line == PROMPT && PROMPT !in before
  }

  predicate Matches(c: Command, line: string) {
    match c.ty
    case NoResult => false
    case Numeric => StartsWithDigit(line)
    case _ => StartsWith(line, c.prefix)
  }

  /** The lines a command's response could hold, in order of arrival. */
  function Candidates(c: Command, lines: seq<string>): seq<string> {
    if lines == [] then []
    else
      var before, line := lines[..|lines| - 1], lines[|lines| - 1];
      Candidates(c, before) + (if IsCandidate(c, before, line) then [line] else [])
  }

  predicate IsCandidate(c: Command, before: seq<string>, line: string) {
    !IsFinal(line) && !Prompts(c, before, line) && Matches(c, line)
  }

  /** The intermediate lines the command is due: all candidates of a multi-line
      command, the first one otherwise. */
  function Expected(c: Command, lines: seq<string>): seq<string> {
    var all := Candidates(c, lines);
    if c.ty.MultiLine? || all == [] then all else all[..1]
  }

  // The latest final result.
  function LastFinal(lines: seq<string>): Option<string> {
    if lines == [] then None
    else if IsFinal(lines[|lines| - 1]) then Some(lines[|lines| - 1])
    else LastFinal(lines[..|lines| - 1])
  }

  function Reverse<T>(s: seq<T>): (r: seq<T>)
    ensures |r| == |s|
  {
    if s == [] then [] else Reverse(s[1..]) + [s[0]]
  }

  lemma ReverseCons<T>(x: T, s: seq<T>)
    ensures Reverse([x] + s) == Reverse(s) + [x]
  {
    assert ([x] + s)[1..] == s;
  }

  /** A response as its caller gets it: exactly the lines the command is due, in
      order of arrival, and the latest final result, which agrees with
      `success`. */
  ghost predicate Due(c: Command, lines: seq<string>, r: Response) {
    && r.stored == Expected(c, lines)
    && r.final == LastFinal(lines)
    && r.success == (r.final.Some? && IsSuccess(r.final.value))
  }

  /** What the code's line-by-line updates amount to: the response is the one due,
      once its lines are reversed. */
  ghost predicate Answered(c: Command, lines: seq<string>, r: Response) {
    Due(c, lines, r.(stored := Reverse(r.stored)))
  }

  lemma {:induction false} ProcessAllAnswers(ch: Channel, c: Command, lines: seq<string>)
    ensures var r := ProcessAll(Opened(ch, c), lines);
            && r.slot.Some? && Answered(c, lines, r.slot.value)
            && r.ty == c.ty && r.prefix == c.prefix
            && r.pdu == (if PROMPT in lines then None else c.pdu)
            && r.pdusWritten == ch.pdusWritten + (if PROMPT in lines && c.pdu.Some? then [c.pdu.value] else [])
  {
    if lines != [] {
      var before, line := lines[..|lines| - 1], lines[|lines| - 1];
      ProcessAllAnswers(ch, c, before);
      var mid := ProcessAll(Opened(ch, c), before);
      ReverseCons(line, mid.slot.value.stored);
      assert lines == before + [line];
      Snoc(c, before, line);
      StepAnswers(c, before, line, mid);
    }
  }

  lemma NotFinalPrompt()
    ensures !IsFinal(PROMPT)
  {
    assert PROMPT[0] == '>';
  }

  lemma Snoc(c: Command, before: seq<string>, line: string)
    ensures Candidates(c, before + [line]) == Candidates(c, before) + (if IsCandidate(c, before, line) then [line] else [])
    ensures LastFinal(before + [line]) == if IsFinal(line) then Some(line) else LastFinal(before)
    ensures PROMPT in before + [line] <==> PROMPT in before || line == PROMPT
  {
    var lines := before + [line];
    assert lines[..|lines| - 1] == before && lines[|lines| - 1] == line;
  }

  // How the stored list grows, whatever made the line a candidate.
  lemma ExpectedSnoc(c: Command, before: seq<string>, line: string, stored: seq<string>)
    requires Reverse(stored) == Expected(c, before)
    ensures Expected(c, before + [line]) ==
              if IsCandidate(c, before, line) && (c.ty.MultiLine? || stored == []) then Reverse([line] + stored)
              else Reverse(stored)
  {
    Snoc(c, before, line);
    ReverseCons(line, stored);
  }

  lemma StepAnswers(c: Command, before: seq<string>, line: string, mid: Channel)
    requires mid.slot.Some? && Answered(c, before, mid.slot.value)
    requires mid.ty == c.ty && mid.prefix == c.prefix
    requires mid.pdu == (if PROMPT in before then None else c.pdu)
    ensures var after := Process(mid, line);
            && after.slot.Some? && Answered(c, before + [line], after.slot.value)
            && after.ty == c.ty && after.prefix == c.prefix
            && after.pdu == (if PROMPT in before + [line] then None else c.pdu)
            && after.pdusWritten == mid.pdusWritten + (if Prompts(c, before, line) then [c.pdu.value] else [])
  {
    var r, final := mid.slot.value, IsFinal(line);
    var takes := IsCandidate(c, before, line) && (c.ty.MultiLine? || r.stored == []);
    Snoc(c, before, line);
    ExpectedSnoc(c, before, line, r.stored);
    NotFinalPrompt();
    ProcessByCase(c, before, line, mid);
    AnsweredMore(c, before, line, r, Process(mid, line).slot.value, final, takes);
  }

  // One more line in the response, if it is a final result or is taken.
  lemma AnsweredMore(c: Command, before: seq<string>, line: string, r: Response, after: Response, final: bool, takes: bool)
    requires Answered(c, before, r) && (final ==> !takes)
    requires Expected(c, before + [line]) == Reverse(if takes then [line] + r.stored else r.stored)
    requires LastFinal(before + [line]) == if final then Some(line) else LastFinal(before)
    requires after == if final then r.(final := Some(line), success := IsSuccess(line))
                      else if takes then r.(stored := [line] + r.stored) else r
    ensures Answered(c, before + [line], after)
  {}

  // Process, read through the command's own predicates.
  lemma ProcessByCase(c: Command, before: seq<string>, line: string, mid: Channel)
    requires mid.slot.Some? && mid.ty == c.ty && mid.prefix == c.prefix
    requires mid.pdu == (if PROMPT in before then None else c.pdu)
    ensures Process(mid, line) ==
      if IsFinal(line) then Finish(mid, line, IsSuccess(line))
      else if Prompts(c, before, line) then mid.(pdusWritten := mid.pdusWritten + [c.pdu.value], pdu := None)
      else if Matches(c, line) && (c.ty.MultiLine? || mid.slot.value.stored == []) then AddIntermediate(mid, line)
      else Unsolicited(mid, line)
  {
  }

  /** Line conservation: a line becomes exactly one of final result,
      intermediate, consumed prompt and unsolicited delivery. */
  datatype Fate = IsFinalResult | IsIntermediate | IsPrompt | IsUnsolicited

  function FateOf(ch: Channel, line: string): Fate {
    var after := Process(ch, line);
    if |after.unsolicited| > |ch.unsolicited| then IsUnsolicited
    else if |after.pdusWritten| > |ch.pdusWritten| then IsPrompt
    else if after.slot.Some? && ch.slot.Some? && |after.slot.value.stored| > |ch.slot.value.stored| then IsIntermediate
    else IsFinalResult
  }

  lemma EachLineHasOneFate(ch: Channel, line: string)
    ensures var after := Process(ch, line);
            match FateOf(ch, line)
            case IsUnsolicited => after == ch.(unsolicited := ch.unsolicited + [line])
            case IsPrompt => (
              && line == PROMPT && ch.pdu.Some? && ch.slot.Some?
              && after == ch.(pdusWritten := ch.pdusWritten + [ch.pdu.value], pdu := None))
            case IsIntermediate => (
              && ch.slot.Some? && !IsFinal(line)
              && after == ch.(slot := Some(ch.slot.value.(stored := [line] + ch.slot.value.stored))))
            case IsFinalResult => (
              && ch.slot.Some? && IsFinal(line)
              && after == ch.(slot := Some(ch.slot.value.(success := IsSuccess(line), final := Some(line)))))
  {}

  // Of the kind and, but for a multi-line command, the first of the lines that
  // the pending command asks for.
  predicate Wanted(ch: Channel, line: string)
    requires ch.slot.Some?
  {
    || (ch.ty.Numeric? && ch.slot.value.stored == [] && line != "" && line[0] in "0123456789")
    || (ch.ty.SingleLine? && ch.slot.value.stored == [] && AnyOf(line, [ch.prefix]))
    || (ch.ty.MultiLine? && AnyOf(line, [ch.prefix]))
  }

  /** Which fate it is, in the characters of the line. */
  lemma FateMeans(ch: Channel, line: string)
    ensures FateOf(ch, line) ==
              if ch.slot.None? then IsUnsolicited
              else if AnyOf(line, ["OK", "CONNECT"]) || AnyOf(line, ["ERROR", "+CMS ERROR:", "+CME ERROR:", "NO CARRIER", "NO ANSWER", "NO DIALTONE"]) then IsFinalResult
              else if line == ['>', ' '] && ch.pdu.Some? then IsPrompt
              else if Wanted(ch, line) then IsIntermediate
              else IsUnsolicited
  {
    FinalResults(line);
    DigitMeans(line);
    PrefixMeans(line, ch.prefix);
    assert [ch.prefix][0] == ch.prefix;
  }
}
