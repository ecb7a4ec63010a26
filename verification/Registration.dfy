/** parseRegistrationState (reference-ril/at_network.c): the answers to AT+CREG?
    and its relatives, solicited or not. */
module Registration {
  import opened Basics
  import opened AtTok

  function Commas(t: string): nat {
    if t == "" then 0 else (if t[0] == ',' then 1 else 0) + Commas(t[1..])
  }

  // How a field is read: stat, the leading n and the network type in decimal,
  // lac and cid in unsigned hexadecimal.
  datatype Radix = Dec | Hex

  /** The fields by the number of commas; none for a form that is not known. */
  function Fields(commas: nat): seq<Radix> {
    match commas
    case 0 => [Dec]
    case 1 => [Dec, Dec]
    case 2 => [Dec, Hex, Hex]
    case 3 => [Dec, Dec, Hex, Hex]
    case 4 => [Dec, Dec, Hex, Hex, Dec]
    case _ => []
  }

  // The forms that begin with <n>.
  predicate HasN(commas: nat) {
    commas == 1 || commas == 3 || commas == 4
  }

  function IntOf(r: Option<string>, radix: Radix, longMax: nat): Option<int> {
    if r.None? then None
    else if radix.Dec? then ToInt(NextToken(r.value).0, 10, false, longMax)
    else ToInt(NextToken(r.value).0, 16, true, longMax)
  }

  // Value k is the number in the token after rs[k], which leaves rs[k + 1].
  ghost predicate ValueAt(rs: seq<Option<string>>, vals: seq<int>, kinds: seq<Radix>, longMax: nat, k: nat)
    requires k < |vals| <= |kinds| && k + 1 < |rs|
  {
    IntOf(rs[k], kinds[k], longMax) == Some(vals[k]) && rs[k].Some? && rs[k + 1] == NextToken(rs[k].value).1
  }

  /** The first fields, one behind the other, are these numbers. */
  ghost predicate Values(rs: seq<Option<string>>, vals: seq<int>, kinds: seq<Radix>, longMax: nat) {
    && |vals| <= |kinds| && |rs| == |vals| + 1
    && forall k :: 0 <= k < |vals| ==> ValueAt(rs, vals, kinds, longMax, k)
  }

  lemma OneMoreValue(rs: seq<Option<string>>, vals: seq<int>, kinds: seq<Radix>, longMax: nat, v: int, rest: Option<string>)
    requires Values(rs, vals, kinds, longMax) && |vals| < |kinds|
    requires rs[|vals|].Some? && IntOf(rs[|vals|], kinds[|vals|], longMax) == Some(v)
    requires rest == NextToken(rs[|vals|].value).1
    ensures Values(rs + [rest], vals + [v], kinds, longMax)
  {
    forall k | 0 <= k < |vals| + 1 ensures ValueAt(rs + [rest], vals + [v], kinds, longMax, k) {
      if k < |vals| { assert ValueAt(rs, vals, kinds, longMax, k); }
    }
  }

  /** What is reported: stat, lac, cid and network type where there are such
      fields, and as many items as fields, the last one zero if <n> was. */
  function Report(vals: seq<int>, commas: nat): seq<int>
    requires |vals| == commas + 1
  {
    if HasN(commas) then vals[1..] + [0] else vals
  }

  /** Numbers read so far, behind the start. */
  datatype Trace = Trace(rs: seq<Option<string>>, vals: seq<int>)

  class Network {
    const longMax: nat
    var lac: int
    var cid: int

    constructor (longMax: nat)
      ensures this.longMax == longMax && lac == 0 && cid == 0
    {
      this.longMax := longMax;
      lac, cid := 0, 0;
    }

    ghost predicate Traced(line: Cursor, t: Trace, kinds: seq<Radix>)
      requires line.Valid()
      reads line, line.line
    {
      Values(t.rs, t.vals, kinds, longMax) && t.rs[|t.vals|] == line.Rest()
    }

    // The comma count of what follows the prefix.
    method CountCommas(line: Cursor) returns (commas: nat)
      requires line.Valid() && line.cur.Some?
      ensures commas == Commas(line.Rest().value)
    {
      commas := 0;
      var p: nat := line.cur.value;
      while line.line[p] != NUL
        invariant line.cur.value <= p <= line.end
        invariant commas + Commas(line.line[p..line.end]) == Commas(line.Rest().value)
        decreases line.end - p
      {
        assert line.line[p..line.end][1..] == line.line[p + 1..line.end];
        if line.line[p] == ',' {
          commas := commas + 1;
        }
        p := p + 1;
      }
    }

    // at_tok_nextint or at_tok_nexthexint
    method Next(line: Cursor, radix: Radix, ghost kinds: seq<Radix>, ghost t: Trace) returns (v: Option<int>, ghost t': Trace)
      requires line.Valid() && Traced(line, t, kinds) && |t.vals| < |kinds| && kinds[|t.vals|] == radix
      modifies line`cur, line.line
      ensures line.Valid()
      ensures v.Some? ==> Traced(line, t', kinds) && t'.vals == t.vals + [v.value] && t'.rs == t.rs + [line.Rest()]
      ensures v.None? ==> t' == t && IntOf(t.rs[|t.vals|], radix, longMax).None?
    {
      ghost var rest := line.Rest();
      v := line.NextIntBase(if radix.Dec? then 10 else 16, radix.Hex?, longMax);
      t' := t;
      if v.Some? {
        OneMoreValue(t.rs, t.vals, kinds, longMax, v.value, line.Rest());
        t' := Trace(t.rs + [line.Rest()], t.vals + [v.value]);
      }
    }

    // [<n>,] <stat>
    method ReadStat(line: Cursor, skip: bool, resp: array<int>, ghost kinds: seq<Radix>, ghost t: Trace) returns (ok: bool, ghost t': Trace)
      requires line.Valid() && Traced(line, t, kinds) && t.vals == [] && resp.Length > 0
      requires |kinds| >= (if skip then 2 else 1) && kinds[0].Dec? && (skip ==> kinds[1].Dec?)
      modifies line`cur, line.line, resp
      ensures line.Valid() && Values(t'.rs, t'.vals, kinds, longMax) && t'.rs[0] == t.rs[0]
      ensures forall k :: 1 <= k < resp.Length ==> resp[k] == old(resp[k])
      ensures ok ==> Traced(line, t', kinds) && |t'.vals| == (if skip then 2 else 1) && resp[0] == t'.vals[|t'.vals| - 1]
      ensures !ok ==> |t'.vals| < |kinds| && IntOf(t'.rs[|t'.vals|], kinds[|t'.vals|], longMax).None?
    {
      var v;
      t' := t;
      if skip {
        v, t' := Next(line, Dec, kinds, t');
        if v.None? {
          return false, t';
        }
      }
      v, t' := Next(line, Dec, kinds, t');
      if v.None? {
        return false, t';
      }
      resp[0] := v.value;
      ok := true;
    }

    // <lac>, <cid>
    method ReadArea(line: Cursor, resp: array<int>, ghost kinds: seq<Radix>, ghost t: Trace) returns (ok: bool, ghost t': Trace)
      requires line.Valid() && Traced(line, t, kinds) && resp.Length > 2
      requires |kinds| >= |t.vals| + 2 && kinds[|t.vals|].Hex? && kinds[|t.vals| + 1].Hex?
      modifies line`cur, line.line, resp
      ensures line.Valid() && Values(t'.rs, t'.vals, kinds, longMax) && t'.rs[0] == t.rs[0]
      ensures forall k :: 0 <= k < resp.Length && k != 1 && k != 2 ==> resp[k] == old(resp[k])
      ensures ok ==> Traced(line, t', kinds) && t'.vals == t.vals + [resp[1], resp[2]]
      ensures !ok ==> |t'.vals| < |kinds| && IntOf(t'.rs[|t'.vals|], kinds[|t'.vals|], longMax).None?
    {
      var v;
      v, t' := Next(line, Hex, kinds, t);
      if v.None? {
        return false, t';
      }
      resp[1] := v.value;
      v, t' := Next(line, Hex, kinds, t');
      if v.None? {
        return false, t';
      }
      resp[2] := v.value;
      ok := true;
    }

    // <networkType>
    method ReadType(line: Cursor, resp: array<int>, ghost kinds: seq<Radix>, ghost t: Trace) returns (ok: bool, ghost t': Trace)
      requires line.Valid() && Traced(line, t, kinds) && resp.Length > 3
      requires |kinds| > |t.vals| && kinds[|t.vals|].Dec?
      modifies line`cur, line.line, resp
      ensures line.Valid() && Values(t'.rs, t'.vals, kinds, longMax) && t'.rs[0] == t.rs[0]
      ensures forall k :: 0 <= k < resp.Length && k != 3 ==> resp[k] == old(resp[k])
      ensures ok ==> Traced(line, t', kinds) && t'.vals == t.vals + [resp[3]]
      ensures !ok ==> |t'.vals| < |kinds| && IntOf(t'.rs[|t'.vals|], kinds[|t'.vals|], longMax).None?
    {
      var v;
      v, t' := Next(line, Dec, kinds, t);
      ok := v.Some?;
      if ok {
        resp[3] := v.value;
      }
    }

    // The switch on the number of commas.
    method ReadForm(line: Cursor, commas: nat, resp: array<int>, ghost t: Trace) returns (ok: bool, ghost t': Trace)
      requires line.Valid() && Traced(line, t, Fields(commas)) && t.vals == []
      requires resp.Length == commas + 1 && forall k :: 0 <= k < resp.Length ==> resp[k] == 0
      modifies line`cur, line.line, resp
      ensures line.Valid() && Values(t'.rs, t'.vals, Fields(commas), longMax) && t'.rs[0] == t.rs[0]
      ensures ok ==> commas <= 4 && |t'.vals| == commas + 1 && resp[..] == Report(t'.vals, commas)
      ensures !ok && commas <= 4 ==>
                |t'.vals| <= commas && IntOf(t'.rs[|t'.vals|], Fields(commas)[|t'.vals|], longMax).None?
    {
      t' := t;
      if commas > 4 {
        return false, t';
      }
      ghost var kinds := Fields(commas);
      ok, t' := ReadStat(line, HasN(commas), resp, kinds, t');
      if ok && commas >= 2 {
        ok, t' := ReadArea(line, resp, kinds, t');
      }
      if ok && commas == 4 {
        ok, t' := ReadType(line, resp, kinds, t');
      }
      if ok {
        ghost var report := Report(t'.vals, commas);
        forall k | 0 <= k <= commas ensures resp[k] == report[k] {
          assert k == 0 || k == 1 || k == 2 || k == 3 || k == 4;
        }
        assert resp[..] == report;
      }
    }

    /** parseRegistrationState: succeeds exactly when there is a prefix, the
        number of commas is known, and every field is a number. */
    method ParseRegistrationState(line: Cursor) returns (resp: array?<int>, items: nat, ghost t: Trace)
      requires line.Valid()
      modifies this`lac, this`cid, line`cur, line.line
      ensures line.Valid()
      ensures var start := if old(line.Rest()).None? then None else Behind(old(line.Rest()).value, ':');
              if start.None? || Commas(start.value) > 4 then resp == null
              else
                var kinds := Fields(Commas(start.value));
                && Values(t.rs, t.vals, kinds, longMax) && t.rs[0] == start
                && (resp != null <==> |t.vals| == |kinds|)
                && (resp == null ==> IntOf(t.rs[|t.vals|], kinds[|t.vals|], longMax).None?)
                && (resp != null ==> items == resp.Length == |kinds| && resp[..] == Report(t.vals, |kinds| - 1))
      ensures if resp != null && resp.Length > 2 then lac == resp[1] && cid == resp[2] else lac == old(lac) && cid == old(cid)
    {
      items, t := 0, Trace([None], []);
      var ok := line.Start();
      if !ok {
        return null, 0, t;
      }
      var commas := CountCommas(line);
      resp := new int[commas + 1](_ => 0);
      t := Trace([line.Rest()], []);
      ok, t := ReadForm(line, commas, resp, t);
      if !ok {
        return null, 0, t;
      }
      if commas >= 2 {
        lac := resp[1];
        cid := resp[2];
      }
      items := commas + 1;
    }

    /** Every printed form is read back: its stat, lac, cid and network type,
        with white space, quotes, signs, leading zeros and capitals or without,
        and as many items as it has fields. */
    method ParsePrinted(line: Cursor, ghost prefix: string, ghost fields: seq<Field>, ghost nums: seq<nat>)
        returns (resp: array?<int>, items: nat)
      requires line.Valid() && longMax >= LONG_MAX_32
      requires line.Rest() == Some(prefix + (":" + Print(fields))) && ':' !in prefix
      requires 1 <= |fields| <= 5 && PrintedForm(fields, nums)
      modifies this`lac, this`cid, line`cur, line.line
      ensures line.Valid() && resp != null && items == resp.Length == |fields|
      ensures Reported(Wrapped(nums), resp[..])
      ensures |fields| >= 3 ==> lac == resp[1] && cid == resp[2]
    {
      ghost var kinds := Fields(|fields| - 1);
      FormReads(prefix, fields, nums);
      ghost var t;
      resp, items, t := ParseRegistrationState(line);
      PrintedValues(fields, nums, kinds, t, longMax);
      ReportReported(Wrapped(nums));
    }

    /** The answer +CREG: 2,1 with its blank. */
    method ParseBlank(line: Cursor) returns (resp: array?<int>, items: nat)
      requires line.Valid() && longMax >= LONG_MAX_32 && line.Rest() == Some("+CREG: 2,1")
      modifies this`lac, this`cid, line`cur, line.line
      ensures resp != null && items == 2 && resp[..] == [1, 0]
    {
      BlankForm();
      BlankText();
      resp, items := ParsePrinted(line, "+CREG", [Plain(" ", "2"), Plain("", "1")], [2, 1]);
    }
  }

  // ---------------------------------------------------------------- printed forms

  function Base(radix: Radix): nat {
    if radix.Dec? then 10 else 16
  }

  // The number is one an int can take, or 32 bits of hexadecimal.
  predicate InRange(num: nat, radix: Radix) {
    num <= if radix.Hex? then 2 * LONG_MAX_32 + 1 else LONG_MAX_32
  }

  ghost predicate Prints(f: Field, num: nat, radix: Radix) {
    Good(f) && InRange(num, radix) && Denotes(f.text, num, Base(radix))
  }

  /** What is reported of one to five numbers: without the leading <n>, and as
      many items as numbers. */
  predicate Reported(vals: seq<int>, items: seq<int>) {
    match |vals|
    case 1 => items == [vals[0]]
    case 2 => items == [vals[1], 0]
    case 3 => items == [vals[0], vals[1], vals[2]]
    case 4 => items == [vals[1], vals[2], vals[3], 0]
    case 5 => items == [vals[1], vals[2], vals[3], vals[4], 0]
    case _ => false
  }

  lemma ReportReported(vals: seq<int>)
    requires 1 <= |vals| <= 5
    ensures Reported(vals, Report(vals, |vals| - 1))
  {}

  // Fields k of n in hexadecimal: the area code and the cell, behind the status.
  predicate InHex(n: nat, k: nat) {
    (n == 3 && (k == 1 || k == 2)) || (n >= 4 && (k == 2 || k == 3))
  }

  /** The five forms of section 7.2 of 3GPP TS 27.007: <stat>; <n>,<stat>;
      <stat>,<lac>,<ci>; <n>,<stat>,<lac>,<ci>; and the last with <AcT>. */
  ghost predicate PrintedForm(fields: seq<Field>, nums: seq<nat>) {
    && |fields| == |nums|
    && forall k :: 0 <= k < |fields| ==> PrintedAs(fields[k], nums[k], InHex(|fields|, k))
  }

  ghost predicate PrintedAs(f: Field, num: nat, hex: bool) {
    Good(f) && num <= (if hex then 0xffff_ffff else 0x7fff_ffff) && Denotes(f.text, num, if hex then 16 else 10)
  }

  // They are what the code reads.
  lemma FormKinds(fields: seq<Field>, nums: seq<nat>)
    requires 1 <= |fields| <= 5 && PrintedForm(fields, nums)
    ensures PrintsAll(fields, nums, Fields(|fields| - 1))
  {
    var kinds := Fields(|fields| - 1);
    forall k | 0 <= k < |fields| ensures Prints(fields[k], nums[k], kinds[k]) {
      assert PrintedAs(fields[k], nums[k], InHex(|fields|, k));
      assert k == 0 || k == 1 || k == 2 || k == 3 || k == 4;
    }
  }

  lemma FormReads(prefix: string, fields: seq<Field>, nums: seq<nat>)
    requires 1 <= |fields| <= 5 && PrintedForm(fields, nums) && ':' !in prefix
    ensures PrintsAll(fields, nums, Fields(|fields| - 1))
    ensures Behind(prefix + (":" + Print(fields)), ':') == Some(Print(fields)) && Commas(Print(fields)) == |fields| - 1
  {
    FormKinds(fields, nums);
    Cut(prefix, ':', Print(fields));
    PrintedCommas(fields, nums, Fields(|fields| - 1));
  }

  lemma BlankForm()
    ensures PrintedForm([Plain(" ", "2"), Plain("", "1")], [2, 1])
  {
    OneDigit("2", 2);
    OneDigit("1", 1);
    BlankPrinted();
    NextPrinted();
    TwoPrinted(Plain(" ", "2"), Plain("", "1"), 2, 1);
  }

  lemma BlankPrinted()
    requires Denotes("2", 2, 10)
    ensures PrintedAs(Plain(" ", "2"), 2, false)
  {}

  lemma NextPrinted()
    requires Denotes("1", 1, 10)
    ensures PrintedAs(Plain("", "1"), 1, false)
  {}

  lemma TwoPrinted(f: Field, g: Field, m: nat, n: nat)
    requires PrintedAs(f, m, false) && PrintedAs(g, n, false)
    ensures PrintedForm([f, g], [m, n])
  {
    forall k | 0 <= k < 2 ensures PrintedAs([f, g][k], [m, n][k], InHex(2, k)) { assert k == 0 || k == 1; }
  }

  lemma BlankText()
    ensures "+CREG: 2,1" == "+CREG" + (":" + Print([Plain(" ", "2"), Plain("", "1")]))
  {
    var fields := [Plain(" ", "2"), Plain("", "1")];
    assert PrintField(fields[0]) == " 2" && PrintField(fields[1]) == "1";
    assert fields[1..] == [fields[1]];
    assert Print(fields[1..]) == PrintField(fields[1]);
    assert " 2" + "," + "1" == " 2,1";
    assert "+CREG" + (":" + " 2,1") == "+CREG: 2,1";
  }

  lemma OneDigit(t: string, d: nat)
    requires |t| == 1 && CharDigit(t[0]) == Some(d) && d < 10
    ensures Denotes(t, d, 10)
  {
    var w := Writing(NoSign, "", t);
    assert t[..0] == "" && w.Text() == t;
    assert Writes(w, d, 10);
  }

  ghost predicate PrintsAll(fields: seq<Field>, nums: seq<nat>, kinds: seq<Radix>) {
    && |fields| == |nums| == |kinds|
    && forall k :: 0 <= k < |fields| ==> Prints(fields[k], nums[k], kinds[k])
  }

  function Wrapped(nums: seq<nat>): (vals: seq<int>)
    ensures |vals| == |nums| && forall k :: 0 <= k < |nums| ==> vals[k] == Wrap32(nums[k])
  {
    seq(|nums|, k requires 0 <= k < |nums| => Wrap32(nums[k]))
  }

  /** A cell identity as section 7.2 of 3GPP TS 27.007 prints one. */
  lemma PaddedCapitals()
    ensures Prints(Quoted("", "00C3", ""), 0xc3, Hex)
  {
    FourDigits();
    var w := Writing(NoSign, "", "00C3");
    assert w.Text() == "" + "" + "00C3" == "00C3" && Writes(w, 0xc3, 16);
    QuotedIsPrinted("00C3", 0xc3);
  }

  lemma FourDigits()
    ensures Positional("00C3", 16) == Some(0xc3)
  {
    assert Positional("0", 16) == Some(0);
    PositionalSnoc("0", 0, '0', 0, 16);
    PositionalSnoc("0" + "0", 0, 'C', 12, 16);
    PositionalSnoc("0" + "0" + "C", 12, '3', 3, 16);
    assert "0" + "0" + "C" + "3" == "00C3";
  }

  lemma QuotedIsPrinted(t: string, v: nat)
    requires '"' !in t && v <= 0xffff_ffff && Denotes(t, v, 16)
    ensures Prints(Quoted("", t, ""), v, Hex)
  {
  }

  lemma {:induction false} CommasAppend(a: string, b: string)
    ensures Commas(a + b) == Commas(a) + Commas(b)
  {
    if a == "" {
      assert a + b == b;
    } else {
      assert (a + b)[1..] == a[1..] + b;
      CommasAppend(a[1..], b);
    }
  }

  lemma {:induction false} NoCommas(t: string)
    requires ',' !in t
    ensures Commas(t) == 0
  {
    if t != "" { NoCommas(t[1..]); }
  }

  lemma FieldCommas(f: Field, num: nat, radix: Radix)
    requires Prints(f, num, radix)
    ensures Commas(PrintField(f)) == 0
  {
    DenotesClean(f.text, num, Base(radix));
    forall c | c in f.lead ensures c != ',' { assert IsWhite(c); }
    NoCommas(PrintField(f));
  }

  lemma {:induction false} PrintedCommas(fields: seq<Field>, nums: seq<nat>, kinds: seq<Radix>)
    requires PrintsAll(fields, nums, kinds) && fields != []
    ensures Commas(Print(fields)) == |fields| - 1
  {
    assert Prints(fields[0], nums[0], kinds[0]);
    FieldCommas(fields[0], nums[0], kinds[0]);
    if |fields| > 1 {
      forall k | 0 <= k < |fields[1..]| ensures Prints(fields[1..][k], nums[1..][k], kinds[1..][k]) {
        assert Prints(fields[k + 1], nums[k + 1], kinds[k + 1]);
      }
      PrintedCommas(fields[1..], nums[1..], kinds[1..]);
      var rest := Print(fields[1..]);
      assert Print(fields) == PrintField(fields[0]) + ("," + rest) && ("," + rest)[1..] == rest;
      CommasAppend(PrintField(fields[0]), "," + rest);
    }
  }

  // What is read of the fields from k on.
  lemma PrintedValue(fields: seq<Field>, num: nat, radix: Radix, longMax: nat)
    requires fields != [] && Prints(fields[0], num, radix) && longMax >= LONG_MAX_32
    ensures IntOf(Some(Print(fields)), radix, longMax) == Some(Wrap32(num))
    ensures |fields| > 1 ==> NextToken(Print(fields)).1 == Some(Print(fields[1..]))
  {
    PrintedNext(fields);
    DenotesToInt(fields[0].text, num, Base(radix), radix.Hex?, longMax);
  }

  lemma {:induction false} PrintedValueAt(fields: seq<Field>, nums: seq<nat>, kinds: seq<Radix>, t: Trace, longMax: nat, k: nat)
    requires PrintsAll(fields, nums, kinds) && longMax >= LONG_MAX_32
    requires Values(t.rs, t.vals, kinds, longMax) && t.rs[0] == Some(Print(fields))
    requires k < |fields| && k <= |t.vals|
    ensures t.rs[k] == Some(Print(fields[k..]))
    ensures IntOf(t.rs[k], kinds[k], longMax) == Some(Wrap32(nums[k]))
  {
    if k == 0 {
      assert fields[0..] == fields;
    } else {
      PrintedValueAt(fields, nums, kinds, t, longMax, k - 1);
      assert ValueAt(t.rs, t.vals, kinds, longMax, k - 1);
      assert Prints(fields[k - 1], nums[k - 1], kinds[k - 1]);
      PrintedValue(fields[k - 1..], nums[k - 1], kinds[k - 1], longMax);
      assert fields[k - 1..][1..] == fields[k..];
    }
    assert Prints(fields[k], nums[k], kinds[k]);
    PrintedValue(fields[k..], nums[k], kinds[k], longMax);
  }

  /** Reading a printed form never fails, and gives its numbers. */
  lemma PrintedValues(fields: seq<Field>, nums: seq<nat>, kinds: seq<Radix>, t: Trace, longMax: nat)
    requires PrintsAll(fields, nums, kinds) && longMax >= LONG_MAX_32
    requires Values(t.rs, t.vals, kinds, longMax) && t.rs[0] == Some(Print(fields))
    ensures |t.vals| < |fields| ==> IntOf(t.rs[|t.vals|], kinds[|t.vals|], longMax).Some?
    ensures |t.vals| == |fields| ==> t.vals == Wrapped(nums)
  {
    if |t.vals| < |fields| {
      PrintedValueAt(fields, nums, kinds, t, longMax, |t.vals|);
    } else {
      forall k | 0 <= k < |fields| ensures t.vals[k] == Wrapped(nums)[k] {
        assert ValueAt(t.rs, t.vals, kinds, longMax, k);
        PrintedValueAt(fields, nums, kinds, t, longMax, k);
      }
    }
  }
}
