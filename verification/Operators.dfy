/** The operator list of requestQueryAvailableNetworks (reference-ril/
    at_network.c): parsing, dropping of repeated numeric codes, compaction. */
module Operators {
  import opened Basics
  import opened AtTok

  const MAX_OPER_NAME_LENGTH: nat := 30

  // One operator in the answer.
  datatype Row = Row(stat: string, long: string, short: string, code: string)

  /** One turn of the parse loop on the text that is left: the fields found
      before a search failed, or a row and the text behind it. */
  datatype RowResult = Broken(fields: seq<string>) | Whole(row: Row, rest: string)

  function ParseRow(rest: string): RowResult {
    var a := Behind(rest, '(');
    if a.None? then Broken([]) else
    var b := Behind(a.value, ',');
    if b.None? then Broken([]) else
    ParseNames(Before(a.value, ','), b.value)
  }

  // Behind the status: two names and the code.
  function ParseNames(stat: string, rest: string): RowResult {
    var c := Behind(rest, ',');
    if c.None? then Broken([stat]) else
    var long := Before(rest, ',');
    var d := Behind(c.value, ',');
    if d.None? then Broken([stat, long]) else
    var short := Before(c.value, ',');
    var e := Behind(d.value, ')');
    if e.None? then Broken([stat, long, short]) else
    Whole(Row(stat, long, short, Before(d.value, ')')), e.value)
  }

  // strcpy stays within its slot.
  predicate FitsSlot(s: string) {
    |s| < MAX_OPER_NAME_LENGTH
  }

  predicate FieldsFit(r: RowResult) {
    match r
    case Broken(fields) => (|fields| >= 2 ==> FitsSlot(fields[1])) && (|fields| >= 3 ==> FitsSlot(fields[2]))
    case Whole(row, _) => FitsSlot(row.long) && FitsSlot(row.short) && FitsSlot(row.code)
  }

  predicate GoodCode(row: Row) {
    |row.code| == 5 || |row.code| == 6
  }

  /** The name of a status; an unknown one leaves the slot empty. */
  function StatName(stat: string, longMax: nat): string {
    var v := ToInt(stat, 10, false, longMax);
    match if v.None? then 0 else v.value
    case 0 => "unknown"
    case 1 => "available"
    case 2 => "current"
    case 3 => "forbidden"
    case _ => ""
  }

  // Turn k reads row k, and leaves rests[k + 1].
  ghost predicate RowAt(rests: seq<string>, rows: seq<Row>, k: nat)
    requires k < |rows| && k + 1 < |rests|
  {
    ParseRow(rests[k]) == Whole(rows[k], rests[k + 1])
  }

  ghost predicate Parsed(rests: seq<string>, rows: seq<Row>) {
    |rests| == |rows| + 1 && forall k :: 0 <= k < |rows| ==> RowAt(rests, rows, k)
  }

  /** Every field that is copied, in a whole row or in one that breaks off, fits
      its slot. */
  ghost predicate SlotsHold(line: string) {
    forall rests, rows :: Parsed(rests, rows) && rests[0] == line ==> FieldsFit(ParseRow(rests[|rows|]))
  }

  lemma ParsedMore(rests: seq<string>, rows: seq<Row>, row: Row, rest: string)
    requires Parsed(rests, rows) && ParseRow(rests[|rows|]) == Whole(row, rest)
    ensures Parsed(rests + [rest], rows + [row])
  {
    forall k | 0 <= k < |rows| + 1 ensures RowAt(rests + [rest], rows + [row], k) {
      if k < |rows| { assert RowAt(rests, rows, k); }
    }
  }

  // ---------------------------------------------------------------- first occurrences

  predicate Repeated(rows: seq<Row>, i: nat)
    requires i < |rows|
  {
    exists k :: 0 <= k < i && rows[k].code == rows[i].code
  }

  /** The rows without those whose code came before. */
  function Kept(rows: seq<Row>): (kept: seq<Row>)
    ensures |kept| <= |rows|
  {
    if rows == [] then []
    else
      var n := |rows| - 1;
      Kept(rows[..n]) + (if Repeated(rows, n) then [] else [rows[n]])
  }

  // Where the kept rows are.
  function Firsts(rows: seq<Row>): seq<nat> {
    if rows == [] then []
    else
      var n := |rows| - 1;
      Firsts(rows[..n]) + (if Repeated(rows, n) then [] else [n])
  }

  lemma RepeatedBefore(rows: seq<Row>, n: nat, i: nat)
    requires i < n <= |rows|
    ensures Repeated(rows[..n], i) <==> Repeated(rows, i)
  {
    if Repeated(rows, i) {
      var k :| 0 <= k < i && rows[k].code == rows[i].code;
      assert rows[..n][k].code == rows[..n][i].code;
    }
  }

  lemma {:induction false} FirstsAre(rows: seq<Row>)
    ensures forall i :: i in Firsts(rows) <==> 0 <= i < |rows| && !Repeated(rows, i)
    ensures forall j, k :: 0 <= j < k < |Firsts(rows)| ==> Firsts(rows)[j] < Firsts(rows)[k]
  {
    if rows != [] {
      var n := |rows| - 1;
      var front := Firsts(rows[..n]);
      FirstsAre(rows[..n]);
      forall i | 0 <= i < n ensures Repeated(rows[..n], i) <==> Repeated(rows, i) {
        RepeatedBefore(rows, n, i);
      }
      forall k | 0 <= k < |front| ensures front[k] < n {
        assert front[k] in front;
      }
    }
  }

  lemma {:induction false} KeptAt(rows: seq<Row>, k: nat)
    ensures |Kept(rows)| == |Firsts(rows)|
    ensures k < |Kept(rows)| ==> Firsts(rows)[k] < |rows| && Kept(rows)[k] == rows[Firsts(rows)[k]]
  {
    if rows != [] {
      KeptAt(rows[..|rows| - 1], k);
    }
  }

  /** Kept is exactly the first occurrence of each code, in order. */
  lemma KeptFirsts(rows: seq<Row>)
    ensures |Kept(rows)| == |Firsts(rows)|
    ensures forall k :: 0 <= k < |Firsts(rows)| ==> Firsts(rows)[k] < |rows| && Kept(rows)[k] == rows[Firsts(rows)[k]]
    ensures forall j, k :: 0 <= j < k < |Firsts(rows)| ==> Firsts(rows)[j] < Firsts(rows)[k]
    ensures forall i :: i in Firsts(rows) <==> 0 <= i < |rows| && !Repeated(rows, i)
  {
    FirstsAre(rows);
    KeptAt(rows, 0);
    forall k | 0 <= k < |Firsts(rows)| ensures Firsts(rows)[k] < |rows| && Kept(rows)[k] == rows[Firsts(rows)[k]] {
      KeptAt(rows, k);
    }
  }

  ghost predicate CodeAmong(rows: seq<Row>, code: string) {
    exists k :: 0 <= k < |rows| && rows[k].code == code
  }

  /** No code is kept twice, and none is lost. */
  lemma KeptCodes(rows: seq<Row>)
    ensures forall j, k :: 0 <= j < k < |Kept(rows)| ==> Kept(rows)[j].code != Kept(rows)[k].code
    ensures forall i :: 0 <= i < |rows| ==> CodeAmong(Kept(rows), rows[i].code)
  {
    forall j, k | 0 <= j < k < |Kept(rows)| ensures Kept(rows)[j].code != Kept(rows)[k].code {
      TwoKept(rows, j, k);
    }
    forall i | 0 <= i < |rows| ensures CodeAmong(Kept(rows), rows[i].code) {
      var k := CodeKept(rows, i);
    }
  }

  lemma TwoKept(rows: seq<Row>, j: nat, k: nat)
    requires j < k < |Kept(rows)|
    ensures Kept(rows)[j].code != Kept(rows)[k].code
  {
    FirstsAre(rows);
    KeptAt(rows, j);
    KeptAt(rows, k);
    assert Firsts(rows)[k] in Firsts(rows);
  }

  lemma CodeKept(rows: seq<Row>, i: nat) returns (k: nat)
    requires i < |rows|
    ensures k < |Kept(rows)| && Kept(rows)[k].code == rows[i].code
  {
    var f := FirstOf(rows, i);
    FirstsAre(rows);
    assert f in Firsts(rows);
    k :| k < |Firsts(rows)| && Firsts(rows)[k] == f;
    KeptAt(rows, k);
  }

  // Where a row's code comes first.
  lemma {:induction false} FirstOf(rows: seq<Row>, i: nat) returns (f: nat)
    requires i < |rows|
    ensures f <= i && !Repeated(rows, f) && rows[f].code == rows[i].code
    decreases i
  {
    if Repeated(rows, i) {
      var k: nat :| k < i && rows[k].code == rows[i].code;
      f := FirstOf(rows, k);
    } else {
      f := i;
    }
  }

  // ---------------------------------------------------------------- the tables in memory

  // A NULL or a string in its slot.
  type Slot = Option<string>

  // Row r of the table holds these four strings.
  ghost predicate Quad(t: array<Slot>, j: nat, row: Row, code: string, longMax: nat)
    requires j + 4 <= t.Length
    reads t
  {
    t[j] == Some(row.long) && t[j + 1] == Some(row.short) && t[j + 2] == Some(code) && t[j + 3] == Some(StatName(row.stat, longMax))
  }

  /** The name of a status, for any text of its number: the four that the
      standard has, no name for another, and the first for what is no number. */
  lemma StatMeans(stat: string, longMax: nat)
    requires longMax >= LONG_MAX_32
    ensures Denotes(stat, 0, 10) ==> StatName(stat, longMax) == "unknown"
    ensures Denotes(stat, 1, 10) ==> StatName(stat, longMax) == "available"
    ensures Denotes(stat, 2, 10) ==> StatName(stat, longMax) == "current"
    ensures Denotes(stat, 3, 10) ==> StatName(stat, longMax) == "forbidden"
    ensures forall v :: 3 < v <= LONG_MAX_32 && Denotes(stat, v, 10) ==> StatName(stat, longMax) == ""
    ensures stat == "" ==> StatName(stat, longMax) == "unknown"
  {
    forall v | 0 <= v <= LONG_MAX_32 && Denotes(stat, v, 10) ensures ToInt(stat, 10, false, longMax) == Some(v as int) {
      DenotesToInt(stat, v, 10, false, longMax);
      assert Wrap32(v) == v;
    }
  }

  // The code a parsed row is left with.
  function CodeLeft(rows: seq<Row>, i: nat): string
    requires i < |rows|
  {
    if Repeated(rows, i) then "" else rows[i].code
  }

  ghost predicate FilledAt(t: array<Slot>, rows: seq<Row>, i: nat, j: nat, longMax: nat)
    requires i < |rows| && j + 4 <= t.Length
    reads t
  {
    Quad(t, j, rows[i], CodeLeft(rows, i), longMax)
  }

  ghost predicate NoCode(t: array<Slot>, i: nat, j: nat)
    requires j + 4 <= t.Length
    reads t
  {
    t[j + 2] == None
  }

  /** The rows parsed so far stand in the table; the rest of it has no codes. */
  ghost predicate Filled(t: array<Slot>, rows: seq<Row>, longMax: nat)
    reads t
  {
    && 4 * |rows| <= t.Length
    && (forall i, j | 0 <= i < |rows| && j == 4 * i :: FilledAt(t, rows, i, j, longMax))
    && forall i, j | |rows| <= i && j == 4 * i && j + 4 <= t.Length :: NoCode(t, i, j)
  }

  method CountPlmns(line: string) returns (nplmns: nat)
    ensures nplmns == Count(line, ')')
  {
    nplmns := 0;
    for i := 0 to |line|
      invariant nplmns + Count(line[i..], ')') == Count(line, ')')
    {
      assert line[i..][1..] == line[i + 1..];
      if line[i] == ')' {
        nplmns := nplmns + 1;
      }
    }
  }

  function Count(t: string, c: char): nat {
    if t == "" then 0 else (if t[0] == c then 1 else 0) + Count(t[1..], c)
  }

  // strcpy into a slot
  method Strcpy(t: array<Slot>, at: nat, s: string)
    requires at < t.Length && FitsSlot(s)
    modifies t
    ensures t[at] == Some(s)
    ensures forall k :: 0 <= k < t.Length && k != at ==> t[k] == old(t[k])
  {
    t[at] := Some(s);
  }

  // The names and the code of a row.
  method StoreNames(response: array<Slot>, j: nat, str: string, ghost stat: string) returns (ok: bool, result: string)
    requires j + 4 <= response.Length && FieldsFit(ParseNames(stat, str))
    modifies response
    ensures forall k :: 0 <= k < response.Length && !(j <= k < j + 3) ==> response[k] == old(response[k])
    ensures ok <==> ParseNames(stat, str).Whole?
    ensures ok ==> (
      var row := ParseNames(stat, str).row;
      && result == ParseNames(stat, str).rest && row.stat == stat
      && response[j] == Some(row.long) && response[j + 1] == Some(row.short) && response[j + 2] == Some(row.code))
    ensures !ok ==> response[j + 2] == old(response[j + 2])
  {
    ok, result := false, str;
    var c := Behind(str, ',');
    if c.None? {
      return;
    }
    Strcpy(response, j, Before(str, ','));
    var d := Behind(c.value, ',');
    if d.None? {
      return;
    }
    Strcpy(response, j + 1, Before(c.value, ','));
    var e := Behind(d.value, ')');
    if e.None? {
      return;
    }
    Strcpy(response, j + 2, Before(d.value, ')'));
    ok, result := true, e.value;
  }

  /** One turn of the parse loop, up to the length check. */
  method StoreRow(response: array<Slot>, j: nat, line: string, longMax: nat) returns (ok: bool, result: string)
    requires j + 4 <= response.Length && FieldsFit(ParseRow(line))
    modifies response
    ensures forall k :: 0 <= k < response.Length && !(j <= k < j + 4) ==> response[k] == old(response[k])
    ensures ok <==> ParseRow(line).Whole?
    ensures ok ==> result == ParseRow(line).rest && Quad(response, j, ParseRow(line).row, ParseRow(line).row.code, longMax)
    ensures !ok ==> response[j + 2] == old(response[j + 2])
  {
    ok, result := false, line;
    var nextItem := Behind(line, '(');
    if nextItem.None? {
      return;
    }
    var str := Behind(nextItem.value, ',');
    if str.None? {
      return;
    }
    var stat := Before(nextItem.value, ',');
    Strcpy(response, j + 3, StatName(stat, longMax));
    ok, result := StoreNames(response, j, str.value, stat);
  }

  /** The search for the same code in an earlier row, by the codes left there. */
  method DropRepeated(response: array<Slot>, j: nat, ghost front: seq<Row>, ghost row: Row, longMax: nat) returns (dropped: bool)
    requires j == 4 * |front| && j + 4 <= response.Length
    requires forall i, k | 0 <= i < |front| && k == 4 * i :: FilledAt(response, front, i, k, longMax)
    requires GoodCode(row) && response[j + 2] == Some(row.code)
    modifies response
    ensures dropped <==> Repeated(front + [row], |front|)
    ensures response[j + 2] == Some(CodeLeft(front + [row], |front|))
    ensures forall k :: 0 <= k < response.Length && k != j + 2 ==> response[k] == old(response[k])
  {
    ghost var rows := front + [row];
    var k := 0;
    ghost var i := 0;
    while k < j
      invariant 0 <= i <= |front| && k == 4 * i
      invariant response[j + 2] == Some(row.code)
      invariant forall q :: 0 <= q < response.Length ==> response[q] == old(response[q])
      invariant forall q :: 0 <= q < i ==> front[q].code != row.code
    {
      assert old(FilledAt(response, front, i, k, longMax));
      if response[j + 2] == response[k + 2] {
        SameCode(front, row, i);
        response[j + 2] := Some("");
        return true;
      }
      OtherCode(front, row, i);
      k := k + 4;
      i := i + 1;
    }
    dropped := false;
  }

  // A code left in an earlier row is this one: a good code is not empty.
  lemma SameCode(front: seq<Row>, row: Row, i: nat)
    requires i < |front| && GoodCode(row) && CodeLeft(front, i) == row.code
    ensures Repeated(front + [row], |front|)
  {
    assert (front + [row])[i].code == (front + [row])[|front|].code;
  }

  // If it is not, the row's own code is no match either, or one before was.
  lemma OtherCode(front: seq<Row>, row: Row, i: nat)
    requires i < |front| && CodeLeft(front, i) != row.code
    requires forall q :: 0 <= q < i ==> front[q].code != row.code
    ensures front[i].code != row.code
  {}

  // One more row stands in the table.
  lemma FilledMore(t: array<Slot>, front: seq<Row>, row: Row, longMax: nat)
    requires 4 * |front| + 4 <= t.Length
    requires forall i, j | 0 <= i < |front| && j == 4 * i :: FilledAt(t, front, i, j, longMax)
    requires Quad(t, 4 * |front|, row, CodeLeft(front + [row], |front|), longMax)
    requires forall i, j | |front| < i && j == 4 * i && j + 4 <= t.Length :: NoCode(t, i, j)
    ensures Filled(t, front + [row], longMax)
  {
    var rows := front + [row];
    forall i, j | 0 <= i < |rows| && j == 4 * i ensures FilledAt(t, rows, i, j, longMax) {
      if i < |front| {
        assert FilledAt(t, front, i, j, longMax);
        RepeatedBefore(rows, |front|, i);
        assert rows[..|front|] == front;
      }
    }
  }

  /** What a turn of the parse loop comes to. */
  datatype Turn = Next | Stop | BadCode

  /** One turn: a row is stored and marked if repeated, or the loop ends. */
  method ParseTurn(response: array<Slot>, j: nat, line: string, ghost rows: seq<Row>, longMax: nat)
      returns (turn: Turn, result: string, dropped: bool)
    requires j == 4 * |rows| && j + 4 <= response.Length
    requires Filled(response, rows, longMax) && FieldsFit(ParseRow(line))
    modifies response
    ensures turn.Stop? <==> ParseRow(line).Broken?
    ensures turn.Stop? ==> Filled(response, rows, longMax)
    ensures turn.BadCode? <==> ParseRow(line).Whole? && !GoodCode(ParseRow(line).row)
    ensures turn.Next? ==> (
      var row := ParseRow(line).row;
      && ParseRow(line) == Whole(row, result) && Filled(response, rows + [row], longMax)
      && (dropped <==> Repeated(rows + [row], |rows|)))
  {
    dropped := false;
    var ok;
    ok, result := StoreRow(response, j, line, longMax);
    forall i, k | 0 <= i < |rows| && k == 4 * i ensures FilledAt(response, rows, i, k, longMax) {
      assert old(FilledAt(response, rows, i, k, longMax));
    }
    forall i, k | |rows| <= i && k == 4 * i && k + 4 <= response.Length ensures NoCode(response, i, k) || (i == |rows| && ok) {
      assert old(NoCode(response, i, k));
    }
    if !ok {
      return Stop, result, false;
    }
    var len := if response[j + 2].Some? then |response[j + 2].value| else 0;
    if len != 5 && len != 6 {
      return BadCode, result, false;
    }
    dropped := MarkRepeated(response, j, rows, ParseRow(line).row, longMax);
    turn := Next;
  }

  // The row at j joins the table.
  method MarkRepeated(response: array<Slot>, j: nat, ghost front: seq<Row>, ghost row: Row, longMax: nat) returns (dropped: bool)
    requires j == 4 * |front| && j + 4 <= response.Length
    requires forall i, k | 0 <= i < |front| && k == 4 * i :: FilledAt(response, front, i, k, longMax)
    requires forall i, k | |front| < i && k == 4 * i && k + 4 <= response.Length :: NoCode(response, i, k)
    requires Quad(response, j, row, row.code, longMax) && GoodCode(row)
    modifies response
    ensures Filled(response, front + [row], longMax)
    ensures dropped <==> Repeated(front + [row], |front|)
  {
    label before:
    dropped := DropRepeated(response, j, front, row, longMax);
    forall i, k | 0 <= i < |front| && k == 4 * i ensures FilledAt(response, front, i, k, longMax) {
      assert old@before(FilledAt(response, front, i, k, longMax));
    }
    forall i, k | |front| < i && k == 4 * i && k + 4 <= response.Length ensures NoCode(response, i, k) {
      assert old@before(NoCode(response, i, k));
    }
    FilledMore(response, front, row, longMax);
  }

  // The loop ends at this text without a failure, or with one.
  predicate BreaksOff(rest: string) {
    ParseRow(rest).Broken?
  }

  predicate Fails(rest: string) {
    ParseRow(rest).Whole? && !GoodCode(ParseRow(rest).row)
  }

  ghost predicate AllGood(rows: seq<Row>) {
    forall i :: 0 <= i < |rows| ==> GoodCode(rows[i])
  }

  // One turn, in terms of all rows so far.
  method Advance(response: array<Slot>, j: nat, line: string, longMax: nat, ghost rests: seq<string>, ghost rows: seq<Row>)
      returns (turn: Turn, result: string, dropped: bool, ghost rests': seq<string>, ghost rows': seq<Row>)
    requires j == 4 * |rows| && j + 4 <= response.Length && Filled(response, rows, longMax) && AllGood(rows)
    requires Parsed(rests, rows) && rests[|rows|] == line && SlotsHold(rests[0])
    modifies response
    ensures turn.Stop? ==> BreaksOff(line) && Filled(response, rows, longMax)
    ensures turn.BadCode? ==> Fails(line)
    ensures !turn.Next? ==> rests' == rests && rows' == rows
    ensures turn.Next? ==>
              && |rows'| == |rows| + 1 && Parsed(rests', rows') && rests'[0] == rests[0] && rests'[|rows'|] == result
              && Filled(response, rows', longMax) && AllGood(rows')
              && |Kept(rows')| == |Kept(rows)| + (if dropped then 0 else 1)
  {
    assert FieldsFit(ParseRow(rests[|rows|]));
    ghost var r := ParseRow(line);
    turn, result, dropped := ParseTurn(response, j, line, rows, longMax);
    rests', rows' := rests, rows;
    if turn.Next? {
      ParsedMore(rests, rows, r.row, result);
      rests', rows' := rests + [result], rows + [r.row];
      assert rows'[..|rows|] == rows;
    }
  }

  /** The parse loop: the rows up to the first that is broken or has a bad code;
      and the number of valid ones, kept by subtraction. */
  method ParseRows(response: array<Slot>, line: string, nplmns: nat, longMax: nat)
      returns (failed: bool, valid: int, ghost rests: seq<string>, ghost rows: seq<Row>)
    requires response.Length == 4 * nplmns && SlotsHold(line)
    requires forall k :: 0 <= k < response.Length ==> response[k] == None
    modifies response
    ensures Parsed(rests, rows) && rests[0] == line && |rows| <= nplmns && AllGood(rows)
    ensures failed ==> |rows| < nplmns && Fails(rests[|rows|])
    ensures !failed ==> Filled(response, rows, longMax) && valid == nplmns - |rows| + |Kept(rows)|
    ensures !failed ==> |rows| == nplmns || BreaksOff(rests[|rows|])
  {
    failed, valid, rests, rows := false, nplmns, [line], [];
    var result, i := line, 0;
    while i < nplmns
      invariant 0 <= i <= nplmns && i == |rows| && AllGood(rows)
      invariant Parsed(rests, rows) && rests[0] == line && rests[i] == result
      invariant Filled(response, rows, longMax)
      invariant valid == nplmns - i + |Kept(rows)|
    {
      var turn, dropped;
      turn, result, dropped, rests, rows := Advance(response, 4 * i, result, longMax, rests, rows);
      if turn.Stop? {
        return;
      }
      if turn.BadCode? {
        failed := true;
        return;
      }
      if dropped {
        valid := valid - 1;
      }
      i := i + 1;
    }
  }

  // ---------------------------------------------------------------- compaction

  // Row i of the kept ones, complete, at its four places.
  ghost predicate RowIn(t: array<Slot>, kept: seq<Row>, i: nat, j: nat, longMax: nat)
    requires i < |kept| && j + 4 <= t.Length
    reads t
  {
    Quad(t, j, kept[i], kept[i].code, longMax)
  }

  /** The table holds these rows, and behind them NULLs only. */
  ghost predicate Table(t: array<Slot>, kept: seq<Row>, longMax: nat)
    reads t
  {
    && 4 * |kept| <= t.Length
    && (forall i, j | 0 <= i < |kept| && j == 4 * i :: RowIn(t, kept, i, j, longMax))
    && forall q :: 4 * |kept| <= q < t.Length ==> t[q] == None
  }

  /** The columns of a table: two names, the code and the name of the status. */
  lemma TableColumns(t: array<Slot>, kept: seq<Row>, longMax: nat)
    requires Table(t, kept, longMax)
    ensures forall i :: 0 <= i < |kept| ==>
              && t[4 * i] == Some(kept[i].long) && t[4 * i + 1] == Some(kept[i].short)
              && t[4 * i + 2] == Some(kept[i].code) && t[4 * i + 3] == Some(StatName(kept[i].stat, longMax))
  {
    forall i | 0 <= i < |kept|
      ensures t[4 * i] == Some(kept[i].long) && t[4 * i + 1] == Some(kept[i].short)
      ensures t[4 * i + 2] == Some(kept[i].code) && t[4 * i + 3] == Some(StatName(kept[i].stat, longMax))
    {
      var j := 4 * i;
      assert RowIn(t, kept, i, j, longMax);
    }
  }

  predicate HasCode(t: seq<Slot>, at: nat)
    requires at + 4 <= |t|
  {
    t[at + 2].Some? && t[at + 2].value != ""
  }

  // One row of the table, if it has a code, goes to the end of the new one.
  method CopyRow(response: array<Slot>, at: nat, out: array<Slot>, k: nat) returns (k': nat)
    requires at + 4 <= response.Length && response != out
    requires HasCode(response[..], at) ==> k + 4 <= out.Length
    modifies out
    ensures HasCode(response[..], at) ==>
              && k' == k + 4
              && out[k] == response[at] && out[k + 1] == response[at + 1]
              && out[k + 2] == response[at + 2] && out[k + 3] == response[at + 3]
    ensures !HasCode(response[..], at) ==> k' == k
    ensures forall q :: 0 <= q < out.Length && !(k <= q < k') ==> out[q] == old(out[q])
  {
    k' := k;
    if response[at + 2].Some? && |response[at + 2].value| > 0 {
      out[k] := response[at];
      out[k + 1] := response[at + 1];
      out[k + 2] := response[at + 2];
      out[k + 3] := response[at + 3];
      k' := k + 4;
    }
  }

  lemma {:induction false} KeptPrefix(rows: seq<Row>, i: nat)
    requires i < |rows|
    ensures Repeated(rows, i) ==> Kept(rows[..i + 1]) == Kept(rows[..i])
    ensures !Repeated(rows, i) ==> Kept(rows[..i + 1]) == Kept(rows[..i]) + [rows[i]]
    ensures |Kept(rows[..i + 1])| <= |Kept(rows)|
    decreases |rows| - i
  {
    assert rows[..i + 1][..i] == rows[..i];
    RepeatedBefore(rows, i + 1, i);
    if i + 1 < |rows| {
      KeptPrefix(rows, i + 1);
    } else {
      assert rows[..i + 1] == rows;
    }
  }

  // The row that turn i of the compaction copies, if any.
  ghost function Copied(rows: seq<Row>, i: nat): Option<Row> {
    if i < |rows| && !Repeated(rows, i) then Some(rows[i]) else None
  }

  function Appended(kept: seq<Row>, row: Option<Row>): seq<Row> {
    if row.None? then kept else kept + [row.value]
  }

  // Turn i finds this row, or none, at j.
  ghost predicate Finds(t: array<Slot>, j: nat, row: Option<Row>, longMax: nat)
    requires j + 4 <= t.Length
    reads t
  {
    if row.Some? then Quad(t, j, row.value, row.value.code, longMax) && row.value.code != "" else !HasCode(t[..], j)
  }

  // One turn: a row with a code, or one without.
  method CompactTurn(response: array<Slot>, at: nat, out: array<Slot>, k: nat, ghost kept: seq<Row>, ghost row: Option<Row>, longMax: nat)
      returns (k': nat)
    requires at + 4 <= response.Length && response != out && Table(out, kept, longMax) && k == 4 * |kept|
    requires Finds(response, at, row, longMax) && (row.Some? ==> k + 4 <= out.Length)
    modifies out
    ensures Table(out, Appended(kept, row), longMax) && k' == 4 * |Appended(kept, row)|
  {
    k' := CopyRow(response, at, out, k);
    ghost var all := Appended(kept, row);
    forall i, j | 0 <= i < |all| && j == 4 * i ensures RowIn(out, all, i, j, longMax) {
      if i < |kept| {
        assert old(RowIn(out, kept, i, j, longMax));
      }
    }
  }

  // What turn i finds.
  lemma CopiedStands(t: array<Slot>, rows: seq<Row>, i: nat, j: nat, longMax: nat)
    requires Filled(t, rows, longMax) && AllGood(rows) && j == 4 * i && j + 4 <= t.Length
    ensures Finds(t, j, Copied(rows, i), longMax)
  {
    if i < |rows| {
      assert FilledAt(t, rows, i, j, longMax) && GoodCode(rows[i]);
    } else {
      assert NoCode(t, i, j);
    }
  }

  // The rows kept of the first i.
  ghost function KeptOf(rows: seq<Row>, i: nat): seq<Row> {
    Kept(if i <= |rows| then rows[..i] else rows)
  }

  lemma KeptTurn(rows: seq<Row>, i: nat)
    ensures KeptOf(rows, i + 1) == Appended(KeptOf(rows, i), Copied(rows, i))
    ensures |KeptOf(rows, i + 1)| <= |Kept(rows)|
  {
    if i < |rows| {
      KeptPrefix(rows, i);
    } else {
      assert rows[..|rows|] == rows;
    }
  }

  lemma KeptEnds(rows: seq<Row>, i: nat)
    ensures KeptOf(rows, 0) == []
    ensures i >= |rows| ==> KeptOf(rows, i) == Kept(rows)
  {
    assert rows[..|rows|] == rows;
  }

  // One turn, in terms of all rows.
  method CompactOne(response: array<Slot>, i: nat, out: array<Slot>, k: nat, ghost rows: seq<Row>, ghost kept: seq<Row>, longMax: nat)
      returns (k': nat, ghost kept': seq<Row>)
    requires 4 * i + 4 <= response.Length && response != out && Filled(response, rows, longMax) && AllGood(rows)
    requires Table(out, kept, longMax) && k == 4 * |kept| && kept == KeptOf(rows, i) && out.Length >= 4 * |Kept(rows)|
    modifies out
    ensures Table(out, kept', longMax) && k' == 4 * |kept'| && kept' == KeptOf(rows, i + 1)
  {
    CopiedStands(response, rows, i, 4 * i, longMax);
    KeptTurn(rows, i);
    k' := CompactTurn(response, 4 * i, out, k, kept, Copied(rows, i), longMax);
    kept' := Appended(kept, Copied(rows, i));
  }

  /** The compaction loop: the table of the kept rows, and NULLs behind it. */
  method Compact(response: array<Slot>, nplmns: nat, valid: nat, ghost rows: seq<Row>, ghost all: seq<Row>, longMax: nat) returns (out: array<Slot>)
    requires response.Length == 4 * nplmns && |rows| <= nplmns && all == Kept(rows) && valid == nplmns - |rows| + |all|
    requires Filled(response, rows, longMax) && AllGood(rows)
    ensures fresh(out) && out.Length == 4 * valid && Table(out, all, longMax)
  {
    out := new Slot[4 * valid](_ => None);
    var i, k: nat := 0, 0;
    KeptEnds(rows, 0);
    ghost var kept: seq<Row> := [];
    while i < nplmns
      invariant i <= nplmns && fresh(out) && Filled(response, rows, longMax)
      invariant Table(out, kept, longMax) && k == 4 * |kept| && kept == KeptOf(rows, i)
    {
      k, kept := CompactOne(response, i, out, k, rows, kept, longMax);
      i := i + 1;
    }
    KeptEnds(rows, i);
  }

  /** What the parse loop sees of an answer with n closing parentheses: these
      rows, and after them the end, a row that breaks off or one with a bad
      code. */
  ghost predicate Sees(line: string, n: nat, rests: seq<string>, rows: seq<Row>) {
    && Parsed(rests, rows) && rests[0] == line && |rows| <= n && AllGood(rows)
    && (|rows| == n || BreaksOff(rests[|rows|]) || Fails(rests[|rows|]))
  }

  lemma NextSame(rests: seq<string>, rows: seq<Row>, rests': seq<string>, rows': seq<Row>, k: nat)
    requires Parsed(rests, rows) && Parsed(rests', rows') && k < |rows| && k < |rows'| && rests[k] == rests'[k]
    ensures rows[k] == rows'[k] && rests[k + 1] == rests'[k + 1]
  {
    assert RowAt(rests, rows, k) && RowAt(rests', rows', k);
  }

  lemma {:induction false} SameFront(rests: seq<string>, rows: seq<Row>, rests': seq<string>, rows': seq<Row>, k: nat)
    requires Parsed(rests, rows) && Parsed(rests', rows') && rests[0] == rests'[0]
    requires k <= |rows| && k <= |rows'|
    ensures rests[k] == rests'[k] && (k < |rows| && k < |rows'| ==> rows[k] == rows'[k])
  {
    if k > 0 {
      SameFront(rests, rows, rests', rows', k - 1);
      NextSame(rests, rows, rests', rows', k - 1);
    }
    if k < |rows| && k < |rows'| { NextSame(rests, rows, rests', rows', k); }
  }

  // A good row that was read is no end.
  lemma NoEnd(rests: seq<string>, rows: seq<Row>, k: nat)
    requires Parsed(rests, rows) && AllGood(rows) && k < |rows|
    ensures !BreaksOff(rests[k]) && !Fails(rests[k])
  {
    assert RowAt(rests, rows, k) && GoodCode(rows[k]);
  }

  lemma SeesNoMore(line: string, n: nat, rests: seq<string>, rows: seq<Row>, rests': seq<string>, rows': seq<Row>)
    requires Sees(line, n, rests, rows) && Sees(line, n, rests', rows')
    ensures |rows| >= |rows'|
  {
    if |rows| < |rows'| {
      SameFront(rests, rows, rests', rows', |rows|);
      NoEnd(rests', rows', |rows|);
    }
  }

  /** An answer determines the rows seen of it. */
  lemma SeesUnique(line: string, n: nat, rests: seq<string>, rows: seq<Row>, rests': seq<string>, rows': seq<Row>)
    requires Sees(line, n, rests, rows) && Sees(line, n, rests', rows')
    ensures rows == rows' && rests == rests'
  {
    SeesNoMore(line, n, rests, rows, rests', rows');
    SeesNoMore(line, n, rests', rows', rests, rows);
    forall k | 0 <= k <= |rows| ensures rests[k] == rests'[k] && (k < |rows| ==> rows[k] == rows'[k]) {
      SameFront(rests, rows, rests', rows', k);
    }
  }

  /** The list made of these rows. */
  ghost predicate ListOf(list: array?<Slot>, n: nat, rests: seq<string>, rows: seq<Row>, longMax: nat)
    requires |rests| == |rows| + 1 && |rows| <= n
    reads list
  {
    if |rows| < n && Fails(rests[|rows|]) then list == null
    else list != null && Table(list, Kept(rows), longMax) && list.Length == 4 * (n - |rows| + |Kept(rows)|)
  }

  /** requestQueryAvailableNetworks on the answer of the modem: no list when a
      code does not have five or six characters; otherwise the first occurrence
      of each code, in order, and a NULL row for each `)` that belongs to no
      row, so that the count kept by subtraction is never exceeded and is met
      exactly when every row was whole. */
  method QueryAvailableNetworks(line: string, longMax: nat) returns (list: array?<Slot>)
    requires SlotsHold(line)
    ensures exists rests, rows :: Sees(line, Count(line, ')'), rests, rows) && ListOf(list, Count(line, ')'), rests, rows, longMax)
  {
    var nplmns := CountPlmns(line);
    var response := new Slot[4 * nplmns](_ => None);
    var failed, valid;
    ghost var rests, rows;
    failed, valid, rests, rows := ParseRows(response, line, nplmns, longMax);
    if failed {
      list := null;
    } else {
      list := Compact(response, nplmns, valid, rows, Kept(rows), longMax);
    }
    assert Sees(line, nplmns, rests, rows) && ListOf(list, nplmns, rests, rows, longMax);
  }

  // ---------------------------------------------------------------- printed lists

  // A field without the characters that delimit it.
  predicate Clear(s: string) {
    ',' !in s && ')' !in s
  }

  predicate ClearRow(row: Row) {
    Clear(row.stat) && Clear(row.long) && Clear(row.short) && Clear(row.code)
  }

  // Names of less than 30 characters, and a code of five or six.
  predicate GoodRow(row: Row) {
    ClearRow(row) && |row.long| < 30 && |row.short| < 30 && 5 <= |row.code| <= 6
  }

  // A row behind any text without parentheses, like the comma after another row.
  datatype Entry = Entry(lead: string, row: Row)

  predicate GoodEntry(e: Entry) {
    '(' !in e.lead && ')' !in e.lead && GoodRow(e.row)
  }

  function PrintRow(row: Row): string {
    "(" + row.stat + "," + row.long + "," + row.short + "," + row.code + ")"
  }

  function PrintList(entries: seq<Entry>, trail: string): string {
    if entries == [] then trail
    else entries[0].lead + PrintRow(entries[0].row) + PrintList(entries[1..], trail)
  }

  ghost predicate GoodList(entries: seq<Entry>, trail: string) {
    && '(' !in trail && ')' !in trail
    && forall i :: 0 <= i < |entries| ==> GoodEntry(entries[i])
  }

  function RowsOf(entries: seq<Entry>): (rows: seq<Row>)
    ensures |rows| == |entries| && forall i :: 0 <= i < |rows| ==> rows[i] == entries[i].row
  {
    seq(|entries|, i requires 0 <= i < |entries| => entries[i].row)
  }

  // The names and the code of a printed row are found.
  lemma NamesBack(row: Row, rest: string)
    requires ClearRow(row)
    ensures ParseNames(row.stat, row.long + ("," + (row.short + ("," + (row.code + (")" + rest)))))) == Whole(row, rest)
  {
    var w := row.code + (")" + rest);
    var v := row.short + ("," + w);
    Cut(row.code, ')', rest);
    Cut(row.short, ',', w);
    Cut(row.long, ',', v);
  }

  // A printed row and what follows it, grouped as the parser takes it apart.
  lemma RowText(lead: string, row: Row, rest: string)
    ensures lead + PrintRow(row) + rest
            == lead + ("(" + (row.stat + ("," + (row.long + ("," + (row.short + ("," + (row.code + (")" + rest)))))))))
  {
    var stat := "(" + row.stat + ",";
    var long := stat + row.long + ",";
    var short := long + row.short + ",";
    var w := row.code + (")" + rest);
    var v := row.short + ("," + w);
    var u := row.long + ("," + v);
    Associate(lead, PrintRow(row), rest);
    Regroup(short, row.code, ")", rest);
    Regroup(long, row.short, ",", w);
    Regroup(stat, row.long, ",", v);
    Regroup("(", row.stat, ",", u);
  }

  lemma Regroup(a: string, b: string, c: string, d: string)
    ensures a + b + c + d == a + (b + (c + d))
  {
    Associate(a + b, c, d);
    Associate(a, b, c + d);
  }

  lemma RowBack(e: Entry, rest: string)
    requires '(' !in e.lead && ClearRow(e.row)
    ensures ParseRow(e.lead + PrintRow(e.row) + rest) == Whole(e.row, rest)
  {
    var row := e.row;
    var names := row.long + ("," + (row.short + ("," + (row.code + (")" + rest)))));
    var inner := row.stat + ("," + names);
    RowText(e.lead, row, rest);
    Cut(e.lead, '(', inner);
    Cut(row.stat, ',', names);
    NamesBack(row, rest);
  }

  /** The quotes count: a quoted code of five or six digits, as the comment in
      the source shows them, fails the whole query. */
  lemma QuotedCodeFails(e: Entry, digits: string, rest: string)
    requires '(' !in e.lead && ClearRow(e.row)
    requires e.row.code == "\"" + digits + "\"" && (|digits| == 5 || |digits| == 6)
    ensures Fails(e.lead + PrintRow(e.row) + rest)
  {
    RowBack(e, rest);
  }

  lemma {:induction false} CountAppend(a: string, b: string, c: char)
    ensures Count(a + b, c) == Count(a, c) + Count(b, c)
  {
    if a == "" {
      assert a + b == b;
    } else {
      assert (a + b)[1..] == a[1..] + b;
      CountAppend(a[1..], b, c);
    }
  }

  lemma {:induction false} CountNone(a: string, c: char)
    requires c !in a
    ensures Count(a, c) == 0
  {
    if a != "" { CountNone(a[1..], c); }
  }

  lemma {:induction false} PrintedCount(entries: seq<Entry>, trail: string)
    requires GoodList(entries, trail)
    ensures Count(PrintList(entries, trail), ')') == |entries|
  {
    if entries == [] {
      CountNone(trail, ')');
    } else {
      var e := entries[0];
      assert GoodEntry(e);
      forall i | 0 <= i < |entries[1..]| ensures GoodEntry(entries[1..][i]) { assert GoodEntry(entries[i + 1]); }
      PrintedCount(entries[1..], trail);
      var body := "(" + e.row.stat + "," + e.row.long + "," + e.row.short + "," + e.row.code;
      var rest := PrintList(entries[1..], trail);
      assert PrintList(entries, trail) == (e.lead + body) + (")" + rest);
      assert (")" + rest)[1..] == rest;
      CountNone(e.lead + body, ')');
      CountAppend(e.lead + body, ")" + rest, ')');
    }
  }

  // After k rows the others are left.
  lemma {:induction false} PrintedAt(entries: seq<Entry>, trail: string, rests: seq<string>, rows: seq<Row>, k: nat)
    requires GoodList(entries, trail) && Parsed(rests, rows) && rests[0] == PrintList(entries, trail)
    requires k <= |rows| && k <= |entries|
    ensures rests[k] == PrintList(entries[k..], trail)
    ensures k < |entries| ==> ParseRow(rests[k]) == Whole(entries[k].row, PrintList(entries[k + 1..], trail))
  {
    if k == 0 {
      assert entries[0..] == entries;
    } else {
      PrintedAt(entries, trail, rests, rows, k - 1);
      assert RowAt(rests, rows, k - 1);
    }
    if k < |entries| {
      assert GoodEntry(entries[k]);
      assert entries[k..][1..] == entries[k + 1..];
      RowBack(entries[k], PrintList(entries[k + 1..], trail));
    }
  }

  /** What is parsed of a printed list is a front part of it. */
  lemma PrintedRows(entries: seq<Entry>, trail: string, rests: seq<string>, rows: seq<Row>)
    requires GoodList(entries, trail) && Parsed(rests, rows) && rests[0] == PrintList(entries, trail)
    ensures |rows| <= |entries| && rows == RowsOf(entries)[..|rows|]
    ensures |rows| < |entries| ==> !BreaksOff(rests[|rows|]) && !Fails(rests[|rows|])
    ensures FieldsFit(ParseRow(rests[|rows|]))
  {
    var m := if |rows| <= |entries| then |rows| else |entries|;
    forall k | 0 <= k < m ensures rows[k] == RowsOf(entries)[k] {
      PrintedAt(entries, trail, rests, rows, k);
      assert RowAt(rests, rows, k);
    }
    PrintedAt(entries, trail, rests, rows, m);
    if m == |entries| {
      assert entries[m..] == [];
      FindNone(trail, '(');
      assert ParseRow(trail) == Broken([]);
      assert m == |rows| || RowAt(rests, rows, m);
    } else {
      assert GoodEntry(entries[m]);
    }
  }

  lemma {:induction false} FindNone(t: string, c: char)
    requires c !in t
    ensures Behind(t, c).None?
  {
    if t != "" { FindNone(t[1..], c); }
  }

  // The rows seen of a printed list are all of it.
  lemma PrintedAll(entries: seq<Entry>, trail: string, rests: seq<string>, rows: seq<Row>)
    requires GoodList(entries, trail) && Sees(PrintList(entries, trail), |entries|, rests, rows)
    ensures rows == RowsOf(entries)
  {
    PrintedRows(entries, trail, rests, rows);
    assert RowsOf(entries)[..|entries|] == RowsOf(entries);
  }

  /** Every well-formed list: the result is exactly the first occurrence of each
      numeric code, in order, with nothing behind it. */
  method QueryPrinted(entries: seq<Entry>, trail: string, longMax: nat) returns (list: array?<Slot>)
    requires GoodList(entries, trail)
    ensures list != null && Table(list, Kept(RowsOf(entries)), longMax) && list.Length == 4 * |Kept(RowsOf(entries))|
  {
    var line := PrintList(entries, trail);
    forall rests, rows | Parsed(rests, rows) && rests[0] == line ensures FieldsFit(ParseRow(rests[|rows|])) {
      PrintedRows(entries, trail, rests, rows);
    }
    PrintedCount(entries, trail);
    list := QueryAvailableNetworks(line, longMax);
    ghost var rests, rows :| Sees(line, |entries|, rests, rows) && ListOf(list, |entries|, rests, rows, longMax);
    PrintedAll(entries, trail, rests, rows);
  }
}
