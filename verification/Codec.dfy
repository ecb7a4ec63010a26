/** Modified UTF-8 <-> UTF-16 (librilutils/strdup8to16.c, strdup16to8.c).

    An 8-bit string is the sequence of its bytes before the terminating NUL;
    a C string argument is such a text followed by a zero byte.  Masks and
    shifts on disjoint bit fields are written with `/`, `%` and `+`. */
module Codec {
  import opened Basics

  const REPLACEMENT: Unit := 0xfffd
  const UNICODE_UPPER_LIMIT: int := 0x10fffd

  // ---------------------------------------------------------------- UTF-16 to UTF-8

  function EncodeUnit(u: Unit): seq<Byte> {
    if u > 0x7ff then [u / 4096 + 0xe0, u / 64 % 64 + 0x80, u % 64 + 0x80]
    else if u > 0x7f || u == 0 then [u / 64 + 0xc0, u % 64 + 0x80]
    else [u]
  }

  function Encode(s: seq<Unit>): seq<Byte> {
    if s == [] then [] else EncodeUnit(s[0]) + Encode(s[1..])
  }

  lemma {:induction false} EncodeAppend(a: seq<Unit>, b: seq<Unit>)
    ensures Encode(a + b) == Encode(a) + Encode(b)
  {
    if a == [] {
      assert a + b == b;
    } else {
      assert (a + b)[1..] == a[1..] + b;
      EncodeAppend(a[1..], b);
    }
  }

  // One more unit read at the front of what is left.
  lemma EncodePrefixStep(s: seq<Unit>, i: nat)
    requires i < |s|
    ensures Encode(s[..i + 1]) == Encode(s[..i]) + EncodeUnit(s[i])
  {
    assert s[..i + 1] == s[..i] + [s[i]];
    EncodeAppend(s[..i], [s[i]]);
    assert Encode([s[i]]) == EncodeUnit(s[i]) + Encode([]);
  }

  lemma {:induction false} EncodeBounds(s: seq<Unit>)
    ensures |s| <= |Encode(s)| <= 3 * |s|
    ensures 0 !in Encode(s)
  {
    if s != [] { EncodeBounds(s[1..]); }
  }

  // The bytes still to be written never outgrow the room that is left.
  lemma EncodePrefixLength(s: seq<Unit>, i: nat)
    requires i <= |s|
    ensures |Encode(s[..i])| + |Encode(s[i..])| == |Encode(s)|
  {
    assert s == s[..i] + s[i..];
    EncodeAppend(s[..i], s[i..]);
  }

  // Addition of a small number to a size_t.
  function WrapAdd(a: nat, b: nat, sizeMax: nat): nat
    requires a <= sizeMax && b <= sizeMax
  {
    if a + b <= sizeMax then a + b else a + b - sizeMax - 1
  }

  // The bytes one unit takes, as the branches on it count them.
  function UnitWidth(u: Unit): (w: nat)
    ensures w == |EncodeUnit(u)|
  {
    if u > 0x7ff then 3 else if u > 0x7f || u == 0 then 2 else 1
  }

  /** strnlen16to8: the number of bytes strncpy16to8 writes before its
      terminator, saturated at SIZE_MAX - 1, whichever path is taken. */
  method Strnlen16to8(utf16: seq<Unit>, sizeMax: nat) returns (utf8Len: nat)
    requires sizeMax >= SIZE_MAX_32
    requires |utf16| <= sizeMax
    ensures utf8Len == Min(|Encode(utf16)|, sizeMax - 1)
  {
    EncodeBounds(utf16);
    if |utf16| < (sizeMax - 1) / 3 {
      utf8Len := LengthFast(utf16);
    } else {
      utf8Len := LengthParanoid(utf16, sizeMax);
    }
  }

  method LengthFast(utf16: seq<Unit>) returns (utf8Len: nat)
    ensures utf8Len == |Encode(utf16)|
  {
    utf8Len := 0;
    for i := 0 to |utf16|
      invariant utf8Len == |Encode(utf16[..i])|
    {
      EncodePrefixStep(utf16, i);
      utf8Len := utf8Len + UnitWidth(utf16[i]);
    }
    assert utf16[..|utf16|] == utf16;
  }

  method LengthParanoid(utf16: seq<Unit>, sizeMax: nat) returns (utf8Len: nat)
    requires sizeMax >= SIZE_MAX_32
    ensures utf8Len == Min(|Encode(utf16)|, sizeMax - 1)
  {
    utf8Len := 0;
    for i := 0 to |utf16|
      invariant utf8Len == |Encode(utf16[..i])| <= sizeMax
    {
      EncodePrefixStep(utf16, i);
      EncodePrefixLength(utf16, i + 1);
      var utf8Cur := utf8Len;
      utf8Len := WrapAdd(utf8Len, UnitWidth(utf16[i]), sizeMax);
      if utf8Len < utf8Cur {
        // the counter has wrapped round
        return sizeMax - 1;
      }
    }
    assert utf16[..|utf16|] == utf16;
    if utf8Len == sizeMax {
      utf8Len := sizeMax - 1;
    }
  }

  // The writes for one unit.
  method PutUnit(utf8: array<Byte>, cur: nat, uic: Unit) returns (next: nat)
    requires cur + |EncodeUnit(uic)| <= utf8.Length
    modifies utf8
    ensures next == cur + |EncodeUnit(uic)|
    ensures utf8[..next] == old(utf8[..cur]) + EncodeUnit(uic)
    ensures forall k :: next <= k < utf8.Length ==> utf8[k] == old(utf8[k])
  {
    if uic > 0x7ff {
      utf8[cur] := uic / 4096 + 0xe0;
      utf8[cur + 1] := uic / 64 % 64 + 0x80;
      utf8[cur + 2] := uic % 64 + 0x80;
      next := cur + 3;
    } else if uic > 0x7f || uic == 0 {
      utf8[cur] := uic / 64 + 0xc0;
      utf8[cur + 1] := uic % 64 + 0x80;
      next := cur + 2;
    } else {
      utf8[cur] := uic;
      next := cur + 1;
    }
  }

  /** strncpy16to8: writes the encoding and a terminator, and touches nothing
      beyond them. */
  method Strncpy16to8(utf8: array<Byte>, utf16: seq<Unit>)
    requires utf8.Length > |Encode(utf16)|
    modifies utf8
    ensures utf8[..|Encode(utf16)|] == Encode(utf16)
    ensures utf8[|Encode(utf16)|] == 0
    ensures forall k :: |Encode(utf16)| < k < utf8.Length ==> utf8[k] == old(utf8[k])
  {
    var cur: nat := 0;
    ghost var total := |Encode(utf16)|;
    for i := 0 to |utf16|
      invariant cur <= total && utf8[..cur] == Encode(utf16[..i])
      invariant forall k :: total < k < utf8.Length ==> utf8[k] == old(utf8[k])
    {
      EncodePrefixStep(utf16, i);
      EncodePrefixLength(utf16, i + 1);
      cur := PutUnit(utf8, cur, utf16[i]);
    }
    assert utf16[..|utf16|] == utf16;
    utf8[cur] := 0;
  }

  /** strndup16to8: NULL exactly on NULL, on a length the counter cannot hold,
      or when the allocation fails. */
  method Strndup16to8(s: Option<seq<Unit>>, sizeMax: nat, mallocOk: bool) returns (r: Option<seq<Byte>>)
    requires sizeMax >= SIZE_MAX_32
    requires s.Some? ==> |s.value| <= sizeMax
    ensures r == if s.Some? && |Encode(s.value)| < sizeMax - 1 && mallocOk then Some(Encode(s.value)) else None
  {
    if s.None? {
      return None;
    }
    var len := Strnlen16to8(s.value, sizeMax);
    if len >= sizeMax - 1 || !mallocOk {
      return None;
    }
    var ret := new Byte[len + 1];
    Strncpy16to8(ret, s.value);
    r := Some(ret[..len]);
  }

  // ---------------------------------------------------------------- UTF-8 to UTF-16

  // A byte of the form 10xxxxxx.
  predicate IsCont(b: Byte) {
    0x80 <= b < 0xc0
  }

  // UTF8_SEQ_LENGTH: 1 to 4 by the upper four bits.
  function SeqLength(b: Byte): (n: int)
    ensures 1 <= n <= 4
  {
    if b < 0xc0 then 1 else if b < 0xe0 then 2 else if b < 0xf0 then 3 else 4
  }

  // The shift-and-mask macro computes that table.
  lemma SeqLengthMacro(ch: bv32)
    requires ch < 256
    ensures (((0xe500_0000 as bv32) >> ((ch >> 3) & 0x1e)) & 3) + 1
         == if ch < 0xc0 then 1 else if ch < 0xe0 then 2 else if ch < 0xf0 then 3 else 4
  {}

  // The leader's own bits under leaderMask.
  function LeaderBits(b: Byte): nat {
    match SeqLength(b)
    case 1 => b
    case 2 => b % 0x20
    case 3 => b % 0x10
    case _ => b % 0x08
  }

  /** What one call of getUtf32FromUtf8 makes of the text t: the code point and
      the number of bytes it steps over, having accepted i bytes worth acc of a
      sequence of n. */
  function Follow(t: seq<Byte>, acc: nat, i: nat, n: nat): (r: (nat, nat))
    requires i <= n && i <= |t|
    ensures i <= r.1 <= |t| && r.1 <= n
    decreases n - i
  {
    if i == n then (acc, i)
    else if i == |t| || !IsCont(t[i]) then (REPLACEMENT, i)
    else Follow(t, acc * 64 + t[i] % 64, i + 1, n)
  }

  function NextChar(t: seq<Byte>): (r: (nat, nat))
    requires t != []
    ensures 1 <= r.1 <= |t|
  {
    if IsCont(t[0]) then (REPLACEMENT, 1) else Follow(t, LeaderBits(t[0]), 1, SeqLength(t[0]))
  }

  function Units(cp: nat): (r: seq<Unit>)
    ensures 1 <= |r| <= 2
  {
    if cp <= 0xffff then [cp]
    else if cp <= UNICODE_UPPER_LIMIT then [0xd800 + (cp - 0x10000) / 1024, 0xdc00 + (cp - 0x10000) % 1024]
    else [REPLACEMENT]
  }

  function Decode(t: seq<Byte>): seq<Unit>
    decreases |t|
  {
    if t == [] then []
    else
      var (cp, k) := NextChar(t);
      Units(cp) + Decode(t[k..])
  }

  lemma DecodeStep(t: seq<Byte>, before: seq<Unit>)
    requires t != []
    ensures var (cp, k) := NextChar(t);
            && before + Decode(t) == before + Units(cp) + Decode(t[k..])
            && |before| + |Units(cp)| <= |before + Decode(t)|
  {
    var (cp, k) := NextChar(t);
    var rest := Decode(t[k..]);
    assert Decode(t) == Units(cp) + rest;
    Associate(before, Units(cp), rest);
  }

  /** A text and its terminator inside a larger byte sequence. */
  ghost predicate CString(mem: seq<Byte>, p: nat, t: seq<Byte>) {
    && p + |t| < |mem|
    && mem[p..p + |t|] == t
    && mem[p + |t|] == 0
    && 0 !in t
  }

  /** getUtf32FromUtf8: advances the pointer p, at a character of the text. */
  method GetUtf32FromUtf8(mem: seq<Byte>, p: nat, ghost t: seq<Byte>) returns (ret: nat, q: nat)
    requires CString(mem, p, t) && t != []
    ensures (ret, q - p) == NextChar(t)
    ensures CString(mem, q, t[q - p..])
  {
    assert mem[p] == t[0];
    if IsCont(mem[p]) {
      return REPLACEMENT, p + 1;
    }
    var seqLen := SeqLength(mem[p]);
    ret := LeaderBits(mem[p]);
    q := p + 1;
    var i := 1;
    while i < seqLen
      invariant 1 <= i <= seqLen && i <= |t| && q == p + i
      invariant Follow(t, ret, i, seqLen) == NextChar(t)
    {
      assert i < |t| ==> mem[q] == t[i];
      if mem[q] == 0 {
        return REPLACEMENT, q;
      }
      assert i < |t|;
      if !IsCont(mem[q]) {
        return REPLACEMENT, q;
      }
      ret := ret * 64 + mem[q] % 64;
      i := i + 1;
      q := q + 1;
    }
  }

  // The writes for one code point.
  method PutCodePoint(dest: array<Unit>, cur: nat, cp: nat) returns (next: nat)
    requires cur + |Units(cp)| <= dest.Length
    modifies dest
    ensures next == cur + |Units(cp)|
    ensures dest[..next] == old(dest[..cur]) + Units(cp)
  {
    if cp <= 0xffff {
      dest[cur] := cp;
      next := cur + 1;
    } else if cp <= UNICODE_UPPER_LIMIT {
      dest[cur] := 0xd800 + (cp - 0x10000) / 1024;
      dest[cur + 1] := 0xdc00 + (cp - 0x10000) % 1024;
      next := cur + 2;
    } else {
      dest[cur] := REPLACEMENT;
      next := cur + 1;
    }
  }

  /** strcpy8to16: fills dest with the decoding of the text; terminates because
      every character consumes at least one byte. */
  method Strcpy8to16(dest: array<Unit>, mem: seq<Byte>, p0: nat, ghost t: seq<Byte>) returns (outLen: nat)
    requires CString(mem, p0, t)
    requires |Decode(t)| <= dest.Length
    modifies dest
    ensures outLen == |Decode(t)|
    ensures dest[..outLen] == Decode(t)
  {
    var p: nat := p0;
    outLen := 0;
    ghost var rest := t;
    while mem[p] != 0
      invariant CString(mem, p, rest)
      invariant outLen <= dest.Length && dest[..outLen] + Decode(rest) == Decode(t)
      decreases |rest|
    {
      ghost var written := dest[..outLen];
      var ret, q := GetUtf32FromUtf8(mem, p, rest);
      DecodeStep(rest, written);
      outLen := PutCodePoint(dest, outLen, ret);
      rest := rest[q - p..];
      p := q;
    }
  }

  // ---------------------------------------------------------------- the sizing pass

  /** strlen8to16's count of the text t, entered with a given `expected`. */
  function CountFrom(t: seq<Byte>, expected: int): nat {
    if t == [] then 0
    else if IsCont(t[0]) then (if expected - 1 < 0 then 1 else 0) + CountFrom(t[1..], expected - 1)
    else (if SeqLength(t[0]) == 4 then 2 else 1) + CountFrom(t[1..], SeqLength(t[0]) - 1)
  }

  method Strlen8to16(mem: seq<Byte>, p0: nat, ghost t: seq<Byte>) returns (len: nat)
    requires CString(mem, p0, t)
    ensures len == CountFrom(t, 0)
  {
    var p: nat := p0;
    len := 0;
    var expected: int := 0;
    ghost var rest := t;
    while mem[p] != 0
      invariant CString(mem, p, rest)
      invariant len + CountFrom(rest, expected) == CountFrom(t, 0)
      decreases |rest|
    {
      assert rest != [] && mem[p] == rest[0];
      var ic := mem[p];
      p := p + 1;
      if IsCont(ic) {
        expected := expected - 1;
        if expected < 0 {
          len := len + 1;
        }
      } else {
        len := len + 1;
        expected := SeqLength(ic) - 1;
        if expected == 3 {
          len := len + 1;
        }
      }
      rest := rest[1..];
    }
    assert rest == [];
  }

  // The value of the complete four-byte sequence at i.
  ghost predicate FullQuad(t: seq<Byte>, i: nat)
    requires i < |t|
  {
    && i + 3 < |t|
    && IsCont(t[i + 1]) && IsCont(t[i + 2]) && IsCont(t[i + 3])
    && 0x10000 <= QuadValue(t, i) <= UNICODE_UPPER_LIMIT
  }

  function QuadValue(t: seq<Byte>, i: nat): nat
    requires i + 3 < |t|
  {
    ((t[i] as int % 8 * 64 + t[i + 1] as int % 64) * 64 + t[i + 2] as int % 64) * 64 + t[i + 3] as int % 64
  }

  /** Every four-byte leader begins a complete sequence worth a surrogate pair. */
  ghost predicate QuadsComplete(t: seq<Byte>) {
    forall i :: 0 <= i < |t| && t[i] >= 0xf0 ==> FullQuad(t, i)
  }

  // A point where the two passes agree on what is still owed.
  ghost predicate Aligned(t: seq<Byte>, expected: int) {
    expected <= 0 || t == [] || !IsCont(t[0])
  }

  // Counting over the continuation bytes of one sequence adds nothing.
  lemma {:induction false} CountFollow(t: seq<Byte>, acc: nat, i: nat, n: nat)
    requires i <= n && i <= |t|
    ensures var k := Follow(t, acc, i, n).1;
            CountFrom(t[i..], n - i) == CountFrom(t[k..], n - k) && Aligned(t[k..], n - k)
    decreases n - i
  {
    if i != n && i != |t| && IsCont(t[i]) {
      assert t[i..][1..] == t[i + 1..];
      CountFollow(t, acc * 64 + t[i] % 64, i + 1, n);
    }
  }

  lemma {:induction false} CountStep(t: seq<Byte>, e: int) returns (e': int)
    requires t != [] && Aligned(t, e)
    ensures var (cp, k) := NextChar(t);
            && Aligned(t[k..], e')
            && CountFrom(t, e) == (if t[0] >= 0xf0 then 2 else 1) + CountFrom(t[k..], e')
  {
    if IsCont(t[0]) {
      e' := e - 1;
    } else {
      var n := SeqLength(t[0]);
      CountFollow(t, LeaderBits(t[0]), 1, n);
      e' := n - NextChar(t).1;
    }
  }

  // One character takes two units exactly at a full quad.
  lemma UnitsOfNext(t: seq<Byte>)
    requires t != []
    ensures |Units(NextChar(t).0)| == if t[0] >= 0xf0 && FullQuad(t, 0) then 2 else 1
  {
    if IsCont(t[0]) {
    } else if t[0] < 0xf0 {
      FollowBelow(t, LeaderBits(t[0]), 1, SeqLength(t[0]));
    } else {
      var a := LeaderBits(t[0]);
      assert a == t[0] % 8;
      assert NextChar(t) == Follow(t, a, 1, 4);
      if 1 < |t| && IsCont(t[1]) {
        var b := a * 64 + t[1] % 64;
        assert Follow(t, a, 1, 4) == Follow(t, b, 2, 4);
        if 2 < |t| && IsCont(t[2]) {
          var c := b * 64 + t[2] % 64;
          assert Follow(t, b, 2, 4) == Follow(t, c, 3, 4);
        }
      }
    }
  }

  lemma FollowBelow(t: seq<Byte>, acc: nat, i: nat, n: nat)
    requires i <= n <= 3 && i <= |t|
    requires i == 1 && ((n == 1 && acc < 0x80) || (n == 2 && acc < 0x20) || (n == 3 && acc < 0x10))
    ensures Follow(t, acc, i, n).0 <= 0xffff
  {
    if n > 1 && i < |t| && IsCont(t[1]) {
      var b := acc * 64 + t[1] % 64;
      assert Follow(t, acc, 1, n) == Follow(t, b, 2, n);
      if n == 3 && 2 < |t| && IsCont(t[2]) {
        assert Follow(t, b, 2, n) == Follow(t, b * 64 + t[2] % 64, 3, 3);
      }
    }
  }

  // Bytes stepped over after the first are continuation bytes.
  lemma {:induction false} FollowSkips(t: seq<Byte>, acc: nat, i: nat, n: nat)
    requires i <= n && i <= |t|
    ensures forall j :: i <= j < Follow(t, acc, i, n).1 ==> IsCont(t[j])
    decreases n - i
  {
    if i != n && i != |t| && IsCont(t[i]) {
      FollowSkips(t, acc * 64 + t[i] % 64, i + 1, n);
    }
  }

  lemma QuadsStep(t: seq<Byte>)
    requires t != []
    ensures QuadsComplete(t) <==> (t[0] >= 0xf0 ==> FullQuad(t, 0)) && QuadsComplete(t[NextChar(t).1..])
  {
    if !IsCont(t[0]) { FollowSkips(t, LeaderBits(t[0]), 1, SeqLength(t[0])); }
    QuadsCut(t, NextChar(t).1);
  }

  lemma QuadsCut(t: seq<Byte>, k: nat)
    requires 0 < k <= |t| && forall j :: 1 <= j < k ==> IsCont(t[j])
    ensures QuadsComplete(t) <==> (t[0] >= 0xf0 ==> FullQuad(t, 0)) && QuadsComplete(t[k..])
  {
    var r := t[k..];
    assert forall i :: 0 <= i < |r| ==> r[i] == t[k + i] && FullQuad(r, i) == FullQuad(t, k + i);
    if QuadsComplete(t) {
      forall i | 0 <= i < |r| && r[i] >= 0xf0 ensures FullQuad(r, i) {
        assert FullQuad(t, k + i);
      }
    }
    if (t[0] >= 0xf0 ==> FullQuad(t, 0)) && QuadsComplete(r) {
      forall i | 0 <= i < |t| && t[i] >= 0xf0 ensures FullQuad(t, i) {
        if i >= k { assert FullQuad(r, i - k); }
      }
    }
  }

  /** Sizing agrees with copying on every text, malformed ones included: never
      too small, and exact if and only if every four-byte leader is complete. */
  lemma {:induction false} SizingAgrees(t: seq<Byte>, e: int)
    requires Aligned(t, e)
    ensures |Decode(t)| <= CountFrom(t, e)
    ensures |Decode(t)| == CountFrom(t, e) <==> QuadsComplete(t)
    decreases |t|
  {
    if t != [] {
      var e' := CountStep(t, e);
      UnitsOfNext(t);
      QuadsStep(t);
      SizingAgrees(t[NextChar(t).1..], e');
    }
  }

  /** What strdup8to16 comes to.  It hands the result of malloc to the copying
      pass unseen, so one outcome is a write through a null pointer. */
  datatype Copy = NoCopy | Copied(units: seq<Unit>) | WrittenThroughNull

  // The size of the copy is one that malloc is asked for.
  predicate Sizeable(t: seq<Byte>, sizeMax: nat) {
    CountFrom(t, 0) <= sizeMax / 2
  }

  /** The exact condition for that write: a text that is not empty, of a size
      that can be asked for, and no memory. */
  predicate NullIsWritten(s: Option<seq<Byte>>, sizeMax: nat, mallocOk: bool) {
    s.Some? && s.value != [] && Sizeable(s.value, sizeMax) && !mallocOk
  }

  /** The smallest case of it. */
  lemma NullIsWrittenForOneLetter(sizeMax: nat)
    requires sizeMax >= SIZE_MAX_32
    ensures NullIsWritten(Some(['A' as int]), sizeMax, false)
  {
    var t: seq<Byte> := ['A' as int];
    assert CountFrom(t[1..], 0) == 0;
  }

  /** strdup8to16: with memory, the buffer sized by the first pass is never
      overrun by the second; without, the copy goes through NULL unless it is
      empty. */
  method Strdup8to16(s: Option<seq<Byte>>, sizeMax: nat, mallocOk: bool) returns (r: Copy)
    requires sizeMax >= SIZE_MAX_32
    requires s.Some? ==> 0 !in s.value
    ensures r == WrittenThroughNull <==> NullIsWritten(s, sizeMax, mallocOk)
    ensures r.Copied? <==> s.Some? && Sizeable(s.value, sizeMax) && mallocOk
    ensures r.Copied? ==> r.units == Decode(s.value)
  {
    if s.None? {
      return NoCopy;
    }
    var mem := s.value + [0];
    assert CString(mem, 0, s.value);
    var len := Strlen8to16(mem, 0, s.value);
    SizingAgrees(s.value, 0);
    // its size in bytes would not fit
    if len != 0 && sizeMax / len < 2 {
      HalfBound(sizeMax, len);
      return NoCopy;
    }
    if len != 0 { HalfBound(sizeMax, len); }
    if !mallocOk {
      return if mem[0] != 0 then WrittenThroughNull else NoCopy;
    }
    var ret := new Unit[len];
    var outLen := Strcpy8to16(ret, mem, 0, s.value);
    r := Copied(ret[..outLen]);
  }

  lemma HalfBound(m: nat, len: nat)
    requires len > 0
    ensures m / len < 2 <==> len > m / 2
  {
    if m / len >= 2 {
      assert m >= (m / len) * len >= 2 * len by { assert m == (m / len) * len + m % len; }
    } else {
      assert m < 2 * len by { assert m == (m / len) * len + m % len; }
    }
  }

  // ---------------------------------------------------------------- round trips

  lemma LowBits(u: Unit)
    ensures u / 4096 < 16 && u / 64 / 64 == u / 4096
    ensures u / 64 * 64 + u % 64 == u
    ensures u / 4096 * 64 + u / 64 % 64 == u / 64
  {}

  // The low six bits of a continuation byte.
  lemma ContBits(x: nat)
    requires x < 64
    ensures (x + 0x80) % 64 == x
  {}

  lemma FollowThree(t: seq<Byte>, a: nat, u: Unit)
    requires |t| >= 3 && a == u / 4096 && t[1] == u / 64 % 64 + 0x80 && t[2] == u % 64 + 0x80
    ensures Follow(t, a, 1, 3) == (u as nat, 3)
  {
    LowBits(u);
    ContBits(u / 64 % 64);
    ContBits(u % 64);
    assert Follow(t, a, 1, 3) == Follow(t, u / 64, 2, 3);
    assert Follow(t, u / 64, 2, 3) == Follow(t, u, 3, 3);
  }

  lemma FollowTwo(t: seq<Byte>, a: nat, u: Unit)
    requires |t| >= 2 && a == u / 64 && t[1] == u % 64 + 0x80
    ensures Follow(t, a, 1, 2) == (u as nat, 2)
  {
    LowBits(u);
    ContBits(u % 64);
    assert Follow(t, a, 1, 2) == Follow(t, u, 2, 2);
  }

  // The first character of an encoded unit is that unit.
  lemma NextEncoded(t: seq<Byte>, u: Unit)
    requires EncodeUnit(u) <= t
    ensures NextChar(t) == (u as nat, |EncodeUnit(u)|)
  {
    var e := EncodeUnit(u);
    assert forall i :: 0 <= i < |e| ==> t[i] == e[i];
    LowBits(u);
    if u > 0x7ff {
      FollowThree(t, LeaderBits(t[0]), u);
    } else if u > 0x7f || u == 0 {
      FollowTwo(t, LeaderBits(t[0]), u);
    }
  }

  // Decoding what EncodeUnit produced gives the unit back and leaves the rest.
  lemma DecodeUnit(u: Unit, rest: seq<Byte>)
    ensures Decode(EncodeUnit(u) + rest) == [u] + Decode(rest)
  {
    var t := EncodeUnit(u) + rest;
    NextEncoded(t, u);
    assert t[|EncodeUnit(u)|..] == rest;
  }

  /** Codec identity, for every sequence of units, zeros and unpaired
      surrogates included. */
  lemma {:induction false} DecodeEncode(s: seq<Unit>)
    ensures Decode(Encode(s)) == s
  {
    if s != [] {
      DecodeUnit(s[0], Encode(s[1..]));
      DecodeEncode(s[1..]);
    }
  }

  /** The length of the canonical modified UTF-8 character at the front of t:
      shortest form, except NUL as C0 80, and nothing outside the BMP.
      Zero when there is none. */
  function CanonicalChar(t: seq<Byte>): (k: nat)
    ensures k <= |t| && k <= 3
  {
    if t == [] then 0
    else if 0 < t[0] < 0x80 then 1
    else if |t| >= 2 && t[0] == 0xc0 && t[1] == 0x80 then 2
    else if |t| >= 2 && 0xc2 <= t[0] < 0xe0 && IsCont(t[1]) then 2
    else if |t| >= 3 && 0xe0 <= t[0] < 0xf0 && IsCont(t[1]) && IsCont(t[2]) && (t[0] == 0xe0 ==> t[1] >= 0xa0) then 3
    else 0
  }

  predicate Canonical(t: seq<Byte>)
    decreases |t|
  {
    t == [] || (CanonicalChar(t) > 0 && Canonical(t[CanonicalChar(t)..]))
  }

  lemma EncodeUnitCanonical(u: Unit, rest: seq<Byte>)
    ensures CanonicalChar(EncodeUnit(u) + rest) == |EncodeUnit(u)|
  {}

  lemma {:induction false} EncodeCanonical(s: seq<Unit>)
    ensures Canonical(Encode(s))
  {
    if s != [] {
      EncodeUnitCanonical(s[0], Encode(s[1..]));
      EncodeCanonical(s[1..]);
      assert Encode(s)[|EncodeUnit(s[0])|..] == Encode(s[1..]);
    }
  }

  // A canonical character is the encoding of one unit.
  lemma CanonicalIsEncoded(t: seq<Byte>) returns (u: Unit)
    requires CanonicalChar(t) > 0
    ensures t[..CanonicalChar(t)] == EncodeUnit(u)
  {
    var k := CanonicalChar(t);
    if k == 1 {
      u := t[0];
    } else if k == 2 {
      u := (t[0] as int - 0xc0) * 64 + t[1] as int - 0x80;
      assert u / 64 == t[0] - 0xc0 && u % 64 == t[1] - 0x80;
    } else {
      u := ((t[0] as int - 0xe0) * 64 + t[1] as int - 0x80) * 64 + t[2] as int - 0x80;
      assert u / 64 == (t[0] as int - 0xe0) * 64 + t[1] as int - 0x80 && u % 64 == t[2] - 0x80;
      assert u / 4096 == t[0] - 0xe0 && u / 64 % 64 == t[1] - 0x80;
      assert u > 0x7ff;
    }
  }

  /** The converse round trip holds exactly on canonical text. */
  lemma {:induction false} EncodeDecode(t: seq<Byte>)
    ensures Encode(Decode(t)) == t <==> Canonical(t)
    decreases |t|
  {
    if Encode(Decode(t)) == t {
      EncodeCanonical(Decode(t));
    }
    if Canonical(t) && t != [] {
      var k := CanonicalChar(t);
      var u := CanonicalIsEncoded(t);
      assert t == EncodeUnit(u) + t[k..];
      DecodeUnit(u, t[k..]);
      assert Decode(t)[1..] == Decode(t[k..]);
      EncodeDecode(t[k..]);
    }
  }
}
