/** The tokeniser of AT response lines (reference-ril/at_tok.c), which ends
    tokens by writing NULs into the line. */
module AtTok {
  import opened Basics

  const NUL: char := '\0'

  // isspace in the C locale
  predicate IsSpace(c: char) {
    c == ' ' || 9 <= c as int <= 13
  }

  // ---------------------------------------------------------------- on the text that is left

  function SkipSpaces(t: string): (r: string)
    ensures |r| <= |t|
    ensures r == "" || !IsSpace(r[0])
  {
    if t != "" && IsSpace(t[0]) then SkipSpaces(t[1..]) else t
  }

  // The place of the first c, or the end.
  function Find(t: string, c: char): (k: nat)
    ensures k <= |t| && (k < |t| ==> t[k] == c)
  {
    if t == "" || t[0] == c then 0 else 1 + Find(t[1..], c)
  }

  function Before(t: string, c: char): string {
    t[..Find(t, c)]
  }

  function Behind(t: string, c: char): Option<string> {
    if Find(t, c) == |t| then None else Some(t[Find(t, c) + 1..])
  }

  function AfterComma(t: string): string {
    if Behind(t, ',').Some? then Behind(t, ',').value else ""
  }

  /** A token, and what is left for the next one; None when strsep has come to
      the end. */
  function NextToken(t: string): (string, Option<string>) {
    var u := SkipSpaces(t);
    if u != "" && u[0] == '"' then
      var b := Behind(u[1..], '"');
      (Before(u[1..], '"'), if b.None? then None else Some(AfterComma(b.value)))
    else
      (Before(u, ','), Behind(u, ','))
  }

  // Token k is the next one of what is left after k tokens, and leaves rs[k + 1].
  ghost predicate TokenAt(rs: seq<Option<string>>, toks: seq<string>, k: nat)
    requires k < |toks| && k + 1 < |rs|
  {
    rs[k].Some? && NextToken(rs[k].value) == (toks[k], rs[k + 1])
  }

  /** The tokens that come one after the other; rs[k] is left before token k. */
  ghost predicate Tokenised(rs: seq<Option<string>>, toks: seq<string>) {
    |rs| == |toks| + 1 && forall k :: 0 <= k < |toks| ==> TokenAt(rs, toks, k)
  }

  lemma OneMore(rs: seq<Option<string>>, toks: seq<string>, tok: string, rest: Option<string>)
    requires Tokenised(rs, toks) && rs[|toks|].Some? && NextToken(rs[|toks|].value) == (tok, rest)
    ensures Tokenised(rs + [rest], toks + [tok])
  {
    forall k | 0 <= k < |toks| + 1 ensures TokenAt(rs + [rest], toks + [tok], k) {
      if k < |toks| { assert TokenAt(rs, toks, k); }
    }
  }

  // ---------------------------------------------------------------- numbers

  function DigitOf(c: char, base: nat): Option<nat> {
    var d: int :=
      if '0' <= c <= '9' then c as int - '0' as int
      else if 'a' <= c <= 'z' then c as int - 'a' as int + 10
      else if 'A' <= c <= 'Z' then c as int - 'A' as int + 10
      else base;
    if d < base then Some(d) else None
  }

  // The value of the digits at the front, continuing acc.
  function Magnitude(t: string, base: nat, acc: nat): nat {
    if t == "" || DigitOf(t[0], base).None? then acc
    else Magnitude(t[1..], base, acc * base + DigitOf(t[0], base).value)
  }

  predicate StartsWithDigit(t: string, base: nat) {
    t != "" && DigitOf(t[0], base).Some?
  }

  // A hexadecimal number may be written after 0x.
  function Unprefixed(t: string, base: nat): string {
    if base == 16 && |t| > 2 && t[0] == '0' && (t[1] == 'x' || t[1] == 'X') && StartsWithDigit(t[2..], 16) then t[2..] else t
  }

  function Wrap32(v: int): (r: int)
    ensures -0x8000_0000 <= r < 0x8000_0000 && (v - r) % 0x1_0000_0000 == 0
  {
    var m := v % 0x1_0000_0000;
    if m < 0x8000_0000 then m else m - 0x1_0000_0000
  }

  // What strtol, or strtoul, gives for a magnitude behind a sign.
  function Clamp(neg: bool, m: nat, uns: bool, longMax: nat): int {
    var size: int := m;
    var v := if neg then -size else size;
    if uns then (if m > 2 * longMax + 1 then -1 else v) else Max(-1 - longMax, Min(v, longMax))
  }

  /** strtol, or strtoul with `uns`, and the conversion to int; None when there
      is no digit. */
  function ToInt(t: string, base: nat, uns: bool, longMax: nat): Option<int> {
    var s := SkipSpaces(t);
    var neg := s != "" && s[0] == '-';
    var u := Unprefixed(if s != "" && (s[0] == '-' || s[0] == '+') then s[1..] else s, base);
    if !StartsWithDigit(u, base) then None
    else Some(Wrap32(Clamp(neg, Magnitude(u, base, 0), uns, longMax)))
  }

  // ---------------------------------------------------------------- in the line

  class Cursor {
    const line: array<char>
    ghost const end: nat               // of the whole text
    var cur: Option<nat>               // *p_cur

    ghost predicate Valid()
      reads this, line
    {
      && end < line.Length && line[end] == NUL
      && (cur.Some? ==> cur.value <= end && forall k :: cur.value <= k < end ==> line[k] != NUL)
    }

    ghost function Rest(): Option<string>
      requires Valid()
      reads this, line
    {
      if cur.None? then None else Some(line[cur.value..end])
    }

    /** A token as its caller holds it: a C string inside the line. */
    ghost predicate Holds(start: nat, text: string)
      reads this, line
    {
      && start + |text| < line.Length
      && line[start..start + |text|] == text && line[start + |text|] == NUL
      && forall k :: start <= k < start + |text| ==> line[k] != NUL
    }

    constructor (line: array<char>, ghost end: nat)
      requires end < line.Length && line[end] == NUL
      requires forall k :: 0 <= k < end ==> line[k] != NUL
      ensures Valid() && this.line == line && this.end == end && cur == Some(0)
    {
      this.line := line;
      this.end := end;
      cur := Some(0);
    }

    // The first c at or after `from`, or the terminator.
    method IndexOf(from: nat, c: char) returns (k: nat)
      requires Valid() && cur.Some? && cur.value <= from <= end && c != NUL
      ensures k == from + Find(line[from..end], c) <= end
      ensures line[k] == c <==> k < end
    {
      k := from;
      while line[k] != NUL && line[k] != c
        invariant from <= k <= end
        invariant from + Find(line[from..end], c) == k + Find(line[k..end], c)
        decreases end - k
      {
        assert line[k..end][1..] == line[k + 1..end];
        k := k + 1;
      }
    }

    /** at_tok_start */
    method Start() returns (ok: bool)
      requires Valid()
      modifies this`cur
      ensures Valid() && (ok <==> Rest().Some?)
      ensures Rest() == if old(Rest()).None? then None else Behind(old(Rest()).value, ':')
    {
      if cur.None? {
        return false;
      }
      var k := IndexOf(cur.value, ':');
      if line[k] != ':' {
        cur := None;
        return false;
      }
      cur := Some(k + 1);
      ok := true;
    }

    method SkipWhiteSpace()
      requires Valid()
      modifies this`cur
      ensures Valid()
      ensures Rest() == if old(Rest()).None? then None else Some(SkipSpaces(old(Rest()).value))
      ensures cur.Some? <==> old(cur).Some?
      ensures cur.Some? ==> cur.value >= old(cur).value
    {
      if cur.None? {
        return;
      }
      var k := cur.value;
      while line[k] != NUL && IsSpace(line[k])
        invariant cur.value <= k <= end
        invariant SkipSpaces(line[k..end]) == SkipSpaces(line[cur.value..end])
        decreases end - k
      {
        assert line[k..end][1..] == line[k + 1..end];
        k := k + 1;
      }
      assert SkipSpaces(line[k..end]) == line[k..end];
      cur := Some(k);
    }

    method SkipNextComma()
      requires Valid()
      modifies this`cur
      ensures Valid()
      ensures Rest() == if old(Rest()).None? then None else Some(AfterComma(old(Rest()).value))
      ensures cur.Some? <==> old(cur).Some?
      ensures cur.Some? ==> cur.value >= old(cur).value
    {
      if cur.None? {
        return;
      }
      var k := IndexOf(cur.value, ',');
      ghost var rest := Rest().value;
      assert k == cur.value + Find(rest, ',');
      assert k < end ==> rest[k - cur.value + 1..] == line[k + 1..end];
      assert k == end ==> line[k..end] == "";
      cur := Some(if line[k] == ',' then k + 1 else k);
    }

    /** strsep with one delimiter */
    method Strsep(delim: char) returns (start: nat)
      requires Valid() && cur.Some? && delim != NUL
      modifies this`cur, line
      ensures Valid()
      ensures start == old(cur.value) && Holds(start, Before(old(Rest()).value, delim))
      ensures Rest() == Behind(old(Rest()).value, delim)
      ensures cur.Some? ==> start + |Before(old(Rest()).value, delim)| < cur.value
      ensures forall k :: 0 <= k < start ==> line[k] == old(line[k])
    {
      start := cur.value;
      var k := IndexOf(start, delim);
      ghost var rest := Rest().value;
      if line[k] == delim {
        line[k] := NUL;
        cur := Some(k + 1);
      } else {
        cur := None;
      }
      assert line[start..k] == rest[..k - start];
    }

    /** nextTok: the token is ended in the line, at or after where the cursor
        was, and nothing before is touched. */
    method NextTok() returns (ret: Option<nat>)
      requires Valid()
      modifies this`cur, line
      ensures Valid() && (ret.Some? <==> old(cur).Some?)
      ensures forall k :: 0 <= k < line.Length && (old(cur).None? || k < old(cur).value) ==> line[k] == old(line[k])
      ensures ret.Some? ==> ret.value >= old(cur).value && Holds(ret.value, NextToken(old(Rest()).value).0)
      ensures ret.Some? && cur.Some? ==> ret.value + |NextToken(old(Rest()).value).0| < cur.value
      ensures Rest() == if old(Rest()).None? then None else NextToken(old(Rest()).value).1
    {
      SkipWhiteSpace();
      if cur.None? {
        return None;
      }
      var start;
      if line[cur.value] == '"' {
        ghost var u := Rest().value;
        cur := Some(cur.value + 1);
        assert Rest().value == u[1..];
        start := Strsep('"');
        SkipNextComma();
      } else {
        start := Strsep(',');
      }
      ret := Some(start);
    }

    /** at_tok_nextstr */
    method NextStr() returns (out: Option<nat>)
      requires Valid()
      modifies this`cur, line
      ensures Valid() && (out.Some? <==> old(cur).Some?)
      ensures forall k :: 0 <= k < line.Length && (old(cur).None? || k < old(cur).value) ==> line[k] == old(line[k])
      ensures out.Some? ==> out.value >= old(cur).value && Holds(out.value, NextToken(old(Rest()).value).0)
      ensures out.Some? && cur.Some? ==> out.value + |NextToken(old(Rest()).value).0| < cur.value
      ensures Rest() == if old(Rest()).None? then None else NextToken(old(Rest()).value).1
    {
      if cur.None? {
        return None;
      }
      out := NextTok();
    }

    // The C string at `start`.
    method ReadCString(start: nat, ghost text: string) returns (t: string)
      requires Holds(start, text)
      ensures t == text
    {
      t := [];
      var k := start;
      while line[k] != NUL
        invariant start <= k <= start + |text| && t == text[..k - start]
        decreases start + |text| - k
      {
        t := t + [line[k]];
        k := k + 1;
      }
    }

    /** at_tok_nextint_base: the cursor is past the token even when it is no
        number. */
    method NextIntBase(base: nat, uns: bool, longMax: nat) returns (out: Option<int>)
      requires Valid()
      modifies this`cur, line
      ensures Valid()
      ensures out == if old(Rest()).None? then None else ToInt(NextToken(old(Rest()).value).0, base, uns, longMax)
      ensures Rest() == if old(Rest()).None? then None else NextToken(old(Rest()).value).1
    {
      if cur.None? {
        return None;
      }
      ghost var tok := NextToken(Rest().value).0;
      var ret := NextTok();
      var t := ReadCString(ret.value, tok);
      out := ToInt(t, base, uns, longMax);
    }

    /** at_tok_hasmore */
    method HasMore() returns (more: bool)
      requires Valid()
      ensures more <==> Rest().Some? && Rest().value != ""
    {
      more := cur.Some? && line[cur.value] != NUL;
    }

    // Every token got so far, ended before the cursor.
    ghost predicate AllHeld(starts: seq<nat>, texts: seq<string>)
      reads this, line
    {
      && |starts| == |texts|
      && forall i :: 0 <= i < |starts| ==> Held(starts[i], texts[i])
    }

    ghost predicate Held(start: nat, text: string)
      reads this, line
    {
      Holds(start, text) && (cur.Some? ==> start + |text| < cur.value)
    }

    // One call, the tokens before it and its own held.
    method NextHeld(starts: seq<nat>, ghost texts: seq<string>) returns (all: seq<nat>)
      requires Valid() && cur.Some? && AllHeld(starts, texts)
      modifies this`cur, line
      ensures Valid() && AllHeld(all, texts + [NextToken(old(Rest()).value).0])
      ensures Rest() == NextToken(old(Rest()).value).1
    {
      var out := NextStr();
      forall i | 0 <= i < |starts| ensures Held(starts[i], texts[i]) {
        assert old(Held(starts[i], texts[i]));
      }
      all := starts + [out.value];
    }

    /** at_tok_nextstr, called until it fails or has succeeded n times: all the
        tokens stand in the line at the end, none damaged by a later call. */
    method NextStrs(n: nat) returns (starts: seq<nat>, ghost toks: seq<string>, ghost rs: seq<Option<string>>)
      requires Valid()
      modifies this`cur, line
      ensures Valid() && AllHeld(starts, toks) && Tokenised(rs, toks)
      ensures rs[0] == old(Rest()) && rs[|toks|] == Rest()
      ensures |toks| <= n && (|toks| < n ==> Rest().None?)
    {
      starts, toks, rs := [], [], [Rest()];
      while |starts| < n && cur.Some?
        invariant Valid() && AllHeld(starts, toks) && Tokenised(rs, toks) && |toks| <= n
        invariant rs[0] == old(Rest()) && rs[|toks|] == Rest()
        decreases n - |starts|
      {
        ghost var tok := NextToken(Rest().value).0;
        starts := NextHeld(starts, toks);
        OneMore(rs, toks, tok, Rest());
        toks, rs := toks + [tok], rs + [Rest()];
      }
    }

    /** Reading a response line back: after the prefix, as many calls as there
        are fields give the texts of the fields. */
    method ReadFields(n: nat, ghost prefix: string, ghost fields: seq<Field>) returns (starts: seq<nat>)
      requires Valid() && |fields| == n > 0
      requires Rest() == Some(prefix + (":" + Print(fields))) && ':' !in prefix
      requires forall i :: 0 <= i < n ==> Good(fields[i])
      modifies this`cur, line
      ensures Valid() && AllHeld(starts, Texts(fields))
      ensures Rest() == Remainder(fields[n - 1], None)
    {
      Cut(prefix, ':', Print(fields));
      var ok := Start();
      ghost var toks, rs;
      starts, toks, rs := NextStrs(n);
      PrintedTokens(fields, rs, toks);
    }
  }

  // ---------------------------------------------------------------- printing

  // Blank, tab, line feed, vertical tab, form feed and carriage return.
  predicate IsWhite(c: char) {
    c == ' ' || c == '\t' || c == '\n' || c as int == 11 || c as int == 12 || c == '\r'
  }

  lemma WhiteIsSpace(c: char)
    ensures IsWhite(c) <==> IsSpace(c)
  {}

  /** A field as a modem may print it: white space first, and a quoted one may
      have anything but a comma after its closing quote. */
  datatype Field = Plain(lead: string, text: string) | Quoted(lead: string, text: string, trail: string)

  ghost predicate Good(f: Field) {
    && (forall c :: c in f.lead ==> IsWhite(c))
    && match f
       case Plain(_, text) => ',' !in text && (text != "" ==> !IsWhite(text[0]) && text[0] != '"')
       case Quoted(_, text, trail) => '"' !in text && ',' !in trail
  }

  function PrintField(f: Field): string {
    match f
    case Plain(lead, text) => lead + text
    case Quoted(lead, text, trail) => lead + "\"" + text + "\"" + trail
  }

  function Print(fields: seq<Field>): string {
    if fields == [] then ""
    else if |fields| == 1 then PrintField(fields[0])
    else PrintField(fields[0]) + "," + Print(fields[1..])
  }

  function Texts(fields: seq<Field>): (texts: seq<string>)
    ensures |texts| == |fields| && forall i :: 0 <= i < |fields| ==> texts[i] == fields[i].text
  {
    seq(|fields|, i requires 0 <= i < |fields| => fields[i].text)
  }

  lemma {:induction false} SkipLead(lead: string, t: string)
    requires forall c :: c in lead ==> IsWhite(c)
    requires t == "" || !IsWhite(t[0])
    ensures SkipSpaces(lead + t) == t
  {
    if lead == "" {
      assert lead + t == t;
    } else {
      assert (lead + t)[0] in lead && (lead + t)[1..] == lead[1..] + t;
      SkipLead(lead[1..], t);
    }
  }

  lemma {:induction false} FindIn(a: string, c: char, b: string)
    requires c !in a && (b == "" || b[0] == c)
    ensures Find(a + b, c) == |a|
  {
    if a == "" {
      assert a + b == b;
    } else {
      assert (a + b)[1..] == a[1..] + b;
      FindIn(a[1..], c, b);
    }
  }

  // A text is cut at the first c, or not at all.
  lemma Cut(a: string, c: char, rest: string)
    requires c !in a
    ensures Before(a + ([c] + rest), c) == a && Behind(a + ([c] + rest), c) == Some(rest)
    ensures Before(a, c) == a && Behind(a, c) == None
  {
    FindIn(a, c, [c] + rest);
    FindIn(a, c, "");
    assert a + "" == a;
    assert (a + ([c] + rest))[|a| + 1..] == rest;
  }

  // A printed field is followed by the end, or by a comma and the rest.
  function Tail(more: Option<string>): string {
    if more.None? then "" else "," + more.value
  }

  lemma CutTail(text: string, more: Option<string>)
    requires ',' !in text
    ensures Before(text + Tail(more), ',') == text && Behind(text + Tail(more), ',') == more
  {
    Cut(text, ',', if more.Some? then more.value else "");
    assert text + "" == text;
  }

  lemma PlainBack(lead: string, text: string, more: Option<string>)
    requires Good(Plain(lead, text))
    ensures NextToken(PrintField(Plain(lead, text)) + Tail(more)) == (text, more)
  {
    var u := text + Tail(more);
    assert PrintField(Plain(lead, text)) + Tail(more) == lead + u;
    if text != "" { assert u[0] == text[0]; }
    SkipLead(lead, u);
    CutTail(text, more);
  }

  lemma QuotedBack(lead: string, text: string, trail: string, more: Option<string>)
    requires Good(Quoted(lead, text, trail))
    ensures NextToken(PrintField(Quoted(lead, text, trail)) + Tail(more)) == (text, Some(if more.Some? then more.value else ""))
  {
    var v := trail + Tail(more);
    var u := text + ("\"" + v);
    Associate(lead + "\"" + text + "\"", trail, Tail(more));
    Associate(lead + "\"" + text, "\"", v);
    Associate(lead + "\"", text, "\"" + v);
    Associate(lead, "\"", u);
    SkipLead(lead, "\"" + u);
    assert ("\"" + u)[1..] == u;
    Cut(text, '"', v);
    CutTail(trail, more);
  }

  // What the token of a printed field leaves.
  function Remainder(f: Field, more: Option<string>): Option<string> {
    if more.None? && f.Quoted? then Some("") else more
  }

  lemma FieldBack(f: Field, more: Option<string>)
    requires Good(f)
    ensures NextToken(PrintField(f) + Tail(more)) == (f.text, Remainder(f, more))
  {
    match f {
      case Plain(lead, text) => PlainBack(lead, text, more);
      case Quoted(lead, text, trail) => QuotedBack(lead, text, trail, more);
    }
  }

  lemma PrintedNext(fields: seq<Field>)
    requires fields != [] && Good(fields[0])
    ensures NextToken(Print(fields))
         == (fields[0].text, if |fields| > 1 then Some(Print(fields[1..])) else Remainder(fields[0], None))
  {
    if |fields| == 1 {
      FieldBack(fields[0], None);
      assert PrintField(fields[0]) + "" == PrintField(fields[0]);
    } else {
      FieldBack(fields[0], Some(Print(fields[1..])));
      assert Print(fields) == PrintField(fields[0]) + Tail(Some(Print(fields[1..])));
    }
  }

  lemma {:induction false} PrintedAt(fields: seq<Field>, rs: seq<Option<string>>, toks: seq<string>, k: nat)
    requires forall i :: 0 <= i < |fields| ==> Good(fields[i])
    requires Tokenised(rs, toks) && rs[0] == Some(Print(fields)) && k < |fields| && k <= |toks|
    ensures rs[k] == Some(Print(fields[k..]))
    ensures k < |toks| ==> toks[k] == fields[k].text
    ensures k < |toks| ==> rs[k + 1] == if k + 1 < |fields| then Some(Print(fields[k + 1..])) else Remainder(fields[k], None)
  {
    if k == 0 {
      assert fields[0..] == fields;
    } else {
      PrintedAt(fields, rs, toks, k - 1);
    }
    if k < |toks| {
      assert TokenAt(rs, toks, k);
      PrintedNext(fields[k..]);
      assert k + 1 < |fields| ==> fields[k..][1..] == fields[k + 1..];
    }
  }

  // No field is missed.
  lemma PrintedEnough(fields: seq<Field>, rs: seq<Option<string>>, toks: seq<string>)
    requires forall i :: 0 <= i < |fields| ==> Good(fields[i])
    requires Tokenised(rs, toks) && rs[0] == Some(Print(fields)) && |toks| <= |fields| && fields != []
    requires |toks| < |fields| ==> rs[|toks|].None?
    ensures |toks| == |fields|
  {
    if |toks| < |fields| {
      PrintedAt(fields, rs, toks, |toks|);
    }
  }

  lemma PrintedTok(fields: seq<Field>, rs: seq<Option<string>>, toks: seq<string>, k: nat)
    requires forall i :: 0 <= i < |fields| ==> Good(fields[i])
    requires Tokenised(rs, toks) && rs[0] == Some(Print(fields)) && k < |toks| == |fields|
    ensures toks[k] == fields[k].text
  {
    PrintedAt(fields, rs, toks, k);
  }

  lemma PrintedRest(fields: seq<Field>, rs: seq<Option<string>>, toks: seq<string>)
    requires forall i :: 0 <= i < |fields| ==> Good(fields[i])
    requires Tokenised(rs, toks) && rs[0] == Some(Print(fields)) && 0 < |toks| == |fields|
    ensures rs[|fields|] == Remainder(fields[|fields| - 1], None)
  {
    PrintedAt(fields, rs, toks, |fields| - 1);
  }

  /** Tokenising what was printed gives the fields back. */
  lemma PrintedTokens(fields: seq<Field>, rs: seq<Option<string>>, toks: seq<string>)
    requires forall i :: 0 <= i < |fields| ==> Good(fields[i])
    requires Tokenised(rs, toks) && rs[0] == Some(Print(fields)) && |toks| <= |fields| && fields != []
    requires |toks| < |fields| ==> rs[|toks|].None?
    ensures toks == Texts(fields) && rs[|fields|] == Remainder(fields[|fields| - 1], None)
  {
    PrintedEnough(fields, rs, toks);
    PrintedRest(fields, rs, toks);
    forall k | 0 <= k < |toks| ensures toks[k] == fields[k].text {
      PrintedTok(fields, rs, toks, k);
    }
  }

  /** With fields still to come at_tok_hasmore says so, except before one last
      field that is printed as nothing. */
  lemma MoreExactly(fields: seq<Field>)
    requires fields != []
    ensures Print(fields) == "" <==> fields == [Plain("", "")]
  {
    if |fields| == 1 && fields[0].Plain? && PrintField(fields[0]) == "" {
      assert fields[0].lead == "" && fields[0].text == "";
    }
  }

  // ---------------------------------------------------------------- printed numbers

  const LONG_MAX_32: nat := 0x7fff_ffff

  datatype Sign = NoSign | Plus | Minus

  /** A number as it may be written: a sign, 0x or 0X in hexadecimal, and digits. */
  datatype Writing = Writing(sign: Sign, x: string, digits: string) {
    function Text(): string {
      Mark(sign) + x + digits
    }
  }

  function Mark(sign: Sign): string {
    match sign
    case NoSign => ""
    case Plus => "+"
    case Minus => "-"
  }

  // The digit of a character, in capitals or not.
  function CharDigit(c: char): Option<nat> {
    if '0' <= c <= '9' then Some(c as int - '0' as int)
    else if 'a' <= c <= 'f' then Some(c as int - 'a' as int + 10)
    else if 'A' <= c <= 'F' then Some(c as int - 'A' as int + 10)
    else None
  }

  /** The number that digits are in positional notation, leading zeros or not. */
  function Positional(digits: string, base: nat): Option<nat> {
    if digits == "" then None
    else
      var front, d := digits[..|digits| - 1], CharDigit(digits[|digits| - 1]);
      if d.None? || d.value >= base then None
      else if front == "" then d
      else
        var v := Positional(front, base);
        if v.None? then None else Some(v.value * base + d.value)
  }

  function Abs(v: int): nat {
    if v < 0 then -v else v
  }

  predicate Writes(w: Writing, v: int, base: nat) {
    && (w.x == "" || (base == 16 && (w.x == "0x" || w.x == "0X")))
    && Positional(w.digits, base) == Some(Abs(v)) && (v > 0 ==> !w.sign.Minus?) && (v < 0 ==> w.sign.Minus?)
  }

  /** The text is a way to write the number: in capitals or not, with or without
      leading zeros, a sign and, in hexadecimal, 0x. */
  ghost predicate Denotes(t: string, v: int, base: nat) {
    exists w: Writing :: w.Text() == t && Writes(w, v, base)
  }

  function DigitChar(d: nat): char
    requires d < 16
  {
    if d < 10 then '0' + d as char else 'a' + (d - 10) as char
  }

  // A number in base 10 or 16, without superfluous zeros.
  function Numeral(v: nat, base: nat): (t: string)
    requires 2 <= base <= 16
    ensures t != ""
    decreases v
  {
    if v < base then [DigitChar(v)] else Quotient(v, base); Numeral(v / base, base) + [DigitChar(v % base)]
  }

  lemma Quotient(v: nat, base: nat)
    requires 2 <= base <= v
    ensures v / base < v && v / base * base + v % base == v
  {}

  lemma {:induction false} NumeralPositional(v: nat, base: nat)
    requires 2 <= base <= 16
    ensures Positional(Numeral(v, base), base) == Some(v)
    decreases v
  {
    if v < base {
      assert [DigitChar(v)][..0] == "";
    } else {
      Quotient(v, base);
      NumeralPositional(v / base, base);
      PositionalSnoc(Numeral(v / base, base), v / base, DigitChar(v % base), v % base, base);
    }
  }

  // One more digit.
  lemma PositionalSnoc(front: string, v: nat, c: char, d: nat, base: nat)
    requires Positional(front, base) == Some(v) && CharDigit(c) == Some(d) && d < base
    ensures Positional(front + [c], base) == Some(v * base + d)
  {
    var t := front + [c];
    assert t[..|t| - 1] == front;
  }

  /** Every number can be written. */
  lemma NumeralDenotes(v: nat, base: nat)
    requires 2 <= base <= 16
    ensures Denotes(Numeral(v, base), v, base)
  {
    NumeralPositional(v, base);
    var w := Writing(NoSign, "", Numeral(v, base));
    assert w.Text() == Numeral(v, base) && Writes(w, v, base);
  }

  // ---------------------------------------------------------------- reading them

  lemma {:induction false} MagnitudeAppend(t: string, d: char, base: nat, acc: nat)
    requires forall c :: c in t ==> DigitOf(c, base).Some?
    requires DigitOf(d, base).Some?
    ensures Magnitude(t + [d], base, acc) == Magnitude(t, base, acc) * base + DigitOf(d, base).value
  {
    if t == "" {
      assert t + [d] == [d] && [d][1..] == "";
    } else {
      assert t[0] in t && (t + [d])[1..] == t[1..] + [d];
      MagnitudeAppend(t[1..], d, base, acc * base + DigitOf(t[0], base).value);
    }
  }

  // Nothing that ends a number, or stands before one.
  predicate Clean(c: char) {
    !IsSpace(c) && c != ',' && c != '"' && c != '-' && c != '+' && c != 'x' && c != 'X'
  }

  ghost predicate AllDigits(t: string, base: nat) {
    forall c :: c in t ==> DigitOf(c, base).Some? && Clean(c)
  }

  lemma DigitBack(c: char, base: nat)
    requires base <= 16 && CharDigit(c).Some? && CharDigit(c).value < base
    ensures DigitOf(c, base) == CharDigit(c) && Clean(c)
  {}

  lemma {:induction false} PositionalBack(digits: string, base: nat)
    requires base <= 16 && Positional(digits, base).Some?
    ensures AllDigits(digits, base) && Magnitude(digits, base, 0) == Positional(digits, base).value
  {
    var n := |digits| - 1;
    var front, last := digits[..n], digits[n];
    DigitBack(last, base);
    assert digits == front + [last];
    if n == 0 {
      assert digits[1..] == "";
    } else {
      PositionalBack(front, base);
      MagnitudeAppend(front, last, base, 0);
    }
  }

  // What a number begins with, and that it holds no comma.
  lemma DenotesClean(t: string, v: int, base: nat)
    requires base <= 16 && Denotes(t, v, base)
    ensures t != "" && !IsWhite(t[0]) && t[0] != '"' && ',' !in t
  {
    var w: Writing :| w.Text() == t && Writes(w, v, base);
    WritingBare(w, base, Abs(v));
    assert t[0] in t;
  }

  lemma WritingBare(w: Writing, base: nat, v: nat)
    requires base <= 16 && Positional(w.digits, base) == Some(v) && (w.x == "" || w.x == "0x" || w.x == "0X")
    ensures w.Text() != "" && Bare(w.Text())
  {
    PositionalBack(w.digits, base);
    PrefixBare(w.x);
    DigitsBare(w.digits, base);
    MarkBare(w.sign);
    JoinBare(Mark(w.sign), w.x);
    JoinBare(Mark(w.sign) + w.x, w.digits);
  }

  lemma PrefixBare(x: string)
    requires x == "" || x == "0x" || x == "0X"
    ensures Bare(x)
  {}

  lemma DigitsBare(digits: string, base: nat)
    requires AllDigits(digits, base)
    ensures Bare(digits)
  {}

  // Without commas, quotes and white space.
  ghost predicate Bare(t: string) {
    forall c :: c in t ==> c != ',' && c != '"' && !IsWhite(c)
  }

  lemma MarkBare(sign: Sign)
    ensures Bare(Mark(sign))
  {}

  lemma JoinBare(a: string, b: string)
    requires Bare(a) && Bare(b)
    ensures Bare(a + b)
  {
    forall c | c in a + b ensures c != ',' && c != '"' && !IsWhite(c) { assert c in a || c in b; }
  }

  // Past the sign and 0x.
  lemma SignedDigits(w: Writing, v: int, base: nat)
    requires base <= 16 && Writes(w, v, base)
    ensures var t := w.Text();
            && t != "" && SkipSpaces(t) == t && (t[0] == '-' <==> w.sign.Minus?)
            && Unprefixed(if t[0] == '-' || t[0] == '+' then t[1..] else t, base) == w.digits
    ensures w.digits != "" && StartsWithDigit(w.digits, base)
    ensures Magnitude(w.digits, base, 0) == Abs(v)
  {
    PositionalBack(w.digits, base);
    assert w.digits[0] in w.digits;
    PrefixedDigits(w.x, w.digits, base);
    Associate(Mark(w.sign), w.x, w.digits);
    PastSign(w.sign, w.x + w.digits);
  }

  lemma PastSign(sign: Sign, u: string)
    requires u != "" && Clean(u[0])
    ensures var t := Mark(sign) + u;
            && t != "" && SkipSpaces(t) == t && (t[0] == '-' <==> sign.Minus?)
            && (if t[0] == '-' || t[0] == '+' then t[1..] else t) == u
  {
    match sign {
      case NoSign => assert "" + u == u;
      case Plus => assert ("+" + u)[1..] == u;
      case Minus => assert ("-" + u)[1..] == u;
    }
  }

  lemma PrefixedDigits(x: string, digits: string, base: nat)
    requires AllDigits(digits, base) && digits != ""
    requires x == "" || (base == 16 && (x == "0x" || x == "0X"))
    ensures var u := x + digits; Unprefixed(u, base) == digits && Clean(u[0])
  {
    var u := x + digits;
    assert digits[0] in digits;
    if x == "" {
      assert u == digits;
      if |digits| > 1 { assert digits[1] in digits; }
    } else {
      assert u[2..] == digits && u[0] == '0' && u[1] == x[1];
    }
  }

  lemma ToIntIs(t: string, digits: string, base: nat, uns: bool, longMax: nat)
    requires t != "" && SkipSpaces(t) == t && StartsWithDigit(digits, base)
    requires Unprefixed(if t[0] == '-' || t[0] == '+' then t[1..] else t, base) == digits
    ensures ToInt(t, base, uns, longMax) == Some(Wrap32(Clamp(t[0] == '-', Magnitude(digits, base, 0), uns, longMax)))
  {}

  /** Reading any text of a number gives its value, as an int; one that a long
      cannot hold comes out as the largest or smallest long, and for strtoul one
      beyond an unsigned long as all ones. */
  lemma DenotesToInt(t: string, v: int, base: nat, uns: bool, longMax: nat)
    requires base <= 16 && Denotes(t, v, base)
    ensures !uns && -1 - longMax <= v <= longMax ==> ToInt(t, base, uns, longMax) == Some(Wrap32(v))
    ensures !uns && v > longMax ==> ToInt(t, base, uns, longMax) == Some(Wrap32(longMax))
    ensures !uns && v < -1 - longMax ==> ToInt(t, base, uns, longMax) == Some(Wrap32(-1 - longMax))
    ensures uns && -2 * longMax - 1 <= v <= 2 * longMax + 1 ==> ToInt(t, base, uns, longMax) == Some(Wrap32(v))
    ensures uns && !(-2 * longMax - 1 <= v <= 2 * longMax + 1) ==> ToInt(t, base, uns, longMax) == Some(-1)
  {
    var w: Writing :| w.Text() == t && Writes(w, v, base);
    WritingToInt(w, v, base, uns, longMax);
    ClampMeans(w.sign.Minus?, v, longMax);
  }

  lemma WritingToInt(w: Writing, v: int, base: nat, uns: bool, longMax: nat)
    requires base <= 16 && Writes(w, v, base)
    ensures ToInt(w.Text(), base, uns, longMax) == Some(Wrap32(Clamp(w.sign.Minus?, Abs(v), uns, longMax)))
  {
    SignedDigits(w, v, base);
    ToIntIs(w.Text(), w.digits, base, uns, longMax);
  }

  lemma ClampMeans(neg: bool, v: int, longMax: nat)
    requires (v > 0 ==> !neg) && (v < 0 ==> neg)
    ensures Clamp(neg, Abs(v), false, longMax) == Max(-1 - longMax, Min(v, longMax))
    ensures Clamp(neg, Abs(v), true, longMax) == if Abs(v) > 2 * longMax + 1 then -1 else v
    ensures Wrap32(-1) == -1
  {}

  /** A number is read behind any white space. */
  lemma BlanksBefore(lead: string, t: string, v: int, base: nat)
    requires base <= 16 && Denotes(t, v, base)
    requires forall c :: c in lead ==> IsWhite(c)
    ensures NextToken(lead + t) == (t, None)
  {
    DenotesClean(t, v, base);
    PlainBack(lead, t, None);
    assert lead + t + "" == lead + t;
  }
}
