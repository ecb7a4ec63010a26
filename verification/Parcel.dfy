/** The marshalled form of parcel items, on a little-endian host. */
module ParcelFormat {
  import opened Basics

  type Int32 = v: int | -0x8000_0000 <= v < 0x8000_0000
  type Int64 = v: int | -0x8000_0000_0000_0000 <= v < 0x8000_0000_0000_0000

  // pad_size: the next multiple of four
  function Pad(len: nat): (p: nat)
    ensures len <= p < len + 4
  {
    if len == 0 then 0 else if len <= 4 then 4 else 4 + Pad(len - 4)
  }

  /** pad_size's mask clears the last two bits of len + 3. */
  lemma {:induction false} PadIsMask(len: nat)
    ensures Pad(len) == (len + 3) / 4 * 4
    ensures Pad(len) % 4 == 0
  {
    if len > 4 { PadIsMask(len - 4); }
  }

  function Zeros(n: nat): (s: seq<Byte>)
    ensures |s| == n && forall i :: 0 <= i < n ==> s[i] == 0
  {
    seq(n, _ => 0)
  }

  function Padded(bytes: seq<Byte>): (s: seq<Byte>)
    ensures |s| == Pad(|bytes|)
  {
    bytes + Zeros(Pad(|bytes|) - |bytes|)
  }

  // n bytes of v, the least significant first
  function Little(v: nat, n: nat): (s: seq<Byte>)
    ensures |s| == n
  {
    if n == 0 then [] else [v % 0x100] + Little(v / 0x100, n - 1)
  }

  function FromLittle(s: seq<Byte>): nat {
    if s == [] then 0 else s[0] as int + 0x100 * FromLittle(s[1..])
  }

  function Power256(n: nat): (p: nat)
    ensures p > 0
  {
    if n == 0 then 1 else 0x100 * Power256(n - 1)
  }

  lemma {:induction false} LittleRoundTrip(v: nat, n: nat)
    requires v < Power256(n)
    ensures FromLittle(Little(v, n)) == v
  {
    if n > 0 {
      LittleRoundTrip(v / 0x100, n - 1);
      assert Little(v, n)[1..] == Little(v / 0x100, n - 1);
    }
  }

  const TWO_32: nat := 0x1_0000_0000
  const TWO_64: nat := 0x1_0000_0000_0000_0000

  lemma Powers()
    ensures Power256(2) == 0x1_0000 && Power256(4) == TWO_32 && Power256(8) == TWO_64
  {
    assert Power256(2) == 0x100 * Power256(1) == 0x1_0000;
    assert Power256(4) == 0x100 * Power256(3) == 0x1_0000 * Power256(2);
    assert Power256(6) == 0x100 * Power256(5) == 0x1_0000 * Power256(4);
    assert Power256(8) == 0x100 * Power256(7) == 0x1_0000 * Power256(6);
  }

  // two's complement
  function Unsigned(v: int, m: nat): nat
    requires 0 <= v + m
  {
    if v < 0 then v + m else v
  }

  function Signed(u: nat, m: nat): int {
    if u < m / 2 then u else u - m
  }

  function Int32Bytes(v: Int32): (s: seq<Byte>)
    ensures |s| == 4
  {
    Little(Unsigned(v, TWO_32), 4)
  }

  function Int64Bytes(v: Int64): (s: seq<Byte>)
    ensures |s| == 8
  {
    Little(Unsigned(v, TWO_64), 8)
  }

  // The value of four or eight stored bytes.
  function Int32Of(s: seq<Byte>): Int32
    requires |s| == 4
  {
    FromLittleBound(s); Powers();
    Signed(FromLittle(s), TWO_32)
  }

  function Int64Of(s: seq<Byte>): Int64
    requires |s| == 8
  {
    FromLittleBound(s); Powers();
    Signed(FromLittle(s), TWO_64)
  }

  lemma {:induction false} FromLittleBound(s: seq<Byte>)
    ensures FromLittle(s) < Power256(|s|)
  {
    if s != [] { FromLittleBound(s[1..]); }
  }

  lemma Int32RoundTrip(v: Int32)
    ensures Int32Of(Int32Bytes(v)) == v
  {
    Powers();
    LittleRoundTrip(Unsigned(v, TWO_32), 4);
  }

  lemma Int64RoundTrip(v: Int64)
    ensures Int64Of(Int64Bytes(v)) == v
  {
    Powers();
    LittleRoundTrip(Unsigned(v, TWO_64), 8);
  }

  function UnitsBytes(s: seq<Unit>): (b: seq<Byte>)
    ensures |b| == 2 * |s|
  {
    if s == [] then [] else Little(s[0], 2) + UnitsBytes(s[1..])
  }

  function UnitsOf(b: seq<Byte>, n: nat): (s: seq<Unit>)
    requires |b| == 2 * n
    ensures |s| == n
    decreases n
  {
    if n == 0 then [] else
      FromLittleBound(b[..2]); Powers();
      [FromLittle(b[..2])] + UnitsOf(b[2..], n - 1)
  }

  lemma {:induction false} UnitsRoundTrip(s: seq<Unit>)
    ensures UnitsOf(UnitsBytes(s), |s|) == s
  {
    if s != [] {
      var b := UnitsBytes(s);
      assert b[..2] == Little(s[0], 2) && b[2..] == UnitsBytes(s[1..]);
      Powers();
      LittleRoundTrip(s[0], 2);
      UnitsRoundTrip(s[1..]);
    }
  }

  /** What can be written, and must be read back as the same type. */
  datatype Item =
    | I32(i32: Int32)
    | I64(i64: Int64)
    | Raw(bytes: seq<Byte>)
    | Str(str: Option<seq<Unit>>)

  function StringBytes(s: Option<seq<Unit>>): seq<Byte>
    requires s.Some? ==> |s.value| <= INT32_MAX
  {
    if s.None? then Int32Bytes(-1)
    else Int32Bytes(|s.value|) + Padded(UnitsBytes(s.value) + [0, 0])
  }

  // A string's length has to be an int32.
  predicate Sized(item: Item) {
    item.Str? && item.str.Some? ==> |item.str.value| <= INT32_MAX
  }

  function Marshal(item: Item): seq<Byte>
    requires Sized(item)
  {
    match item
    case I32(v) => Int32Bytes(v)
    case I64(v) => Int64Bytes(v)
    case Raw(b) => Padded(b)
    case Str(s) => StringBytes(s)
  }

  ghost predicate AllSized(items: seq<Item>) {
    forall i :: 0 <= i < |items| ==> Sized(items[i])
  }

  function MarshalAll(items: seq<Item>): seq<Byte>
    requires AllSized(items)
  {
    if items == [] then [] else Marshal(items[0]) + MarshalAll(items[1..])
  }

  /** An integer's bytes, the least significant first. */
  lemma IntegerLayout(v: Int32)
    ensures var b := Int32Bytes(v);
            b[0] as int + b[1] as int * 0x100 + b[2] as int * 0x1_0000 + b[3] as int * 0x100_0000
            == if v < 0 then v + 0x1_0000_0000 else v
  {
    var u, b := Unsigned(v, TWO_32), Int32Bytes(v);
    FourBytes(u);
    Int32RoundTrip(v);
    LowBytes(u);
  }

  lemma FourBytes(u: nat)
    ensures Little(u, 4) == [u % 0x100, u / 0x100 % 0x100, u / 0x1_0000 % 0x100, u / 0x100_0000 % 0x100]
  {
    var x, y, z := u / 0x100, u / 0x100 / 0x100, u / 0x100 / 0x100 / 0x100;
    assert y == u / 0x1_0000 && z == u / 0x100_0000;
    assert Little(z, 1) == [z % 0x100] + Little(z / 0x100, 0);
    assert Little(y, 2) == [y % 0x100] + Little(z, 1);
    assert Little(x, 3) == [x % 0x100] + Little(y, 2);
    assert Little(u, 4) == [u % 0x100] + Little(x, 3);
  }

  lemma LowBytes(u: nat)
    requires u < TWO_32
    ensures u % 0x100 + u / 0x100 % 0x100 * 0x100 + u / 0x1_0000 % 0x100 * 0x1_0000 + u / 0x100_0000 % 0x100 * 0x100_0000 == u
  {
    assert u / 0x1_0000 == u / 0x100 / 0x100 && u / 0x100_0000 == u / 0x100 / 0x100 / 0x100;
  }

  /** Bytes stand as they are, with zeros to the next multiple of four. */
  lemma RawLayout(bytes: seq<Byte>)
    ensures var p := Padded(bytes);
            && |p| % 4 == 0 && |bytes| <= |p| < |bytes| + 4 && p[..|bytes|] == bytes
            && forall i :: |bytes| <= i < |p| ==> p[i] == 0
  {
    PadIsMask(|bytes|);
  }

  lemma {:induction false} UnitsAt(s: seq<Unit>, i: nat)
    requires i < |s|
    ensures UnitsBytes(s)[2 * i] as int + UnitsBytes(s)[2 * i + 1] as int * 0x100 == s[i]
  {
    if i > 0 {
      UnitsAt(s[1..], i - 1);
    } else {
      assert Little(s[0], 2) == [s[0] % 0x100] + Little(s[0] / 0x100, 1);
      assert Little(s[0] / 0x100, 1) == [s[0] / 0x100 % 0x100] + Little(s[0] / 0x100 / 0x100, 0);
    }
  }

  // These bytes are a length, the units with the low byte first, a terminating
  // zero and zeros to the next multiple of four.
  ghost predicate WireString(b: seq<Byte>, s: seq<Unit>) {
    && |b| >= 4 + 2 * |s| + 2 && |b| < 4 + 2 * |s| + 6 && |b| % 4 == 0
    && b[0] as int + b[1] as int * 0x100 + b[2] as int * 0x1_0000 + b[3] as int * 0x100_0000 == |s|
    && (forall i :: 0 <= i < |s| ==> UnitAt(b, i, s[i]))
    && forall i :: 4 + 2 * |s| <= i < |b| ==> b[i] == 0
  }

  predicate UnitAt(b: seq<Byte>, i: nat, u: Unit) {
    5 + 2 * i < |b| && b[4 + 2 * i] as int + b[5 + 2 * i] as int * 0x100 == u
  }

  lemma WireParts(head: seq<Byte>, units: seq<Byte>, pad: seq<Byte>, s: seq<Unit>)
    requires |head| == 4 && |units| == 2 * |s| && 2 <= |pad| < 6 && (|units| + |pad|) % 4 == 0
    requires head[0] as int + head[1] as int * 0x100 + head[2] as int * 0x1_0000 + head[3] as int * 0x100_0000 == |s|
    requires forall i :: 0 <= i < |s| ==> units[2 * i] as int + units[2 * i + 1] as int * 0x100 == s[i]
    requires forall i :: 0 <= i < |pad| ==> pad[i] == 0
    ensures WireString(head + (units + pad), s)
  {
    var b := head + (units + pad);
    forall i | 0 <= i < |s| ensures UnitAt(b, i, s[i]) {
      assert b[4 + 2 * i] == units[2 * i] && b[5 + 2 * i] == units[2 * i + 1];
    }
    forall i | 4 + 2 * |s| <= i < |b| ensures b[i] == 0 {
      assert b[i] == pad[i - 4 - 2 * |s|];
    }
  }

  /** A string on the wire; NULL is a length of -1. */
  lemma StringLayout(s: seq<Unit>)
    requires |s| <= INT32_MAX
    ensures StringBytes(None) == [0xff, 0xff, 0xff, 0xff]
    ensures WireString(StringBytes(Some(s)), s)
  {
    FourBytes(0xffff_ffff);
    var text := UnitsBytes(s) + [0, 0];
    var pad := [0, 0] + Zeros(Pad(|text|) - |text|);
    RawLayout(text);
    Associate(UnitsBytes(s), [0, 0], Zeros(Pad(|text|) - |text|));
    IntegerLayout(|s|);
    forall i | 0 <= i < |s| ensures UnitsBytes(s)[2 * i] as int + UnitsBytes(s)[2 * i + 1] as int * 0x100 == s[i] {
      UnitsAt(s, i);
    }
    WireParts(Int32Bytes(|s|), UnitsBytes(s), pad, s);
  }

  // The bytes b stand at pos in c.
  predicate StandsAt(c: seq<Byte>, pos: nat, b: seq<Byte>) {
    pos + |b| <= |c| && c[pos..pos + |b|] == b
  }

  // A length whose text and terminator stand at `at`, padding included.
  predicate TextFits(c: seq<Byte>, at: nat, size: int) {
    0 <= size < INT32_MAX && 2 * (size + 1) <= INT32_MAX && at + Pad(2 * (size + 1)) <= |c|
  }

  // The text of these bytes, if it is terminated.
  function TextOf(b: seq<Byte>, size: nat): Option<seq<Unit>>
    requires |b| == 2 * (size + 1)
  {
    var units := UnitsOf(b, size + 1);
    if units[size] == 0 then Some(units[..size]) else None
  }

  // The text of `size` units and its terminator at `at`, and the position after.
  function TextAt(c: seq<Byte>, at: nat, size: int): (Option<seq<Unit>>, nat) {
    if !TextFits(c, at, size) then (None, at)
    else (TextOf(c[at..at + 2 * (size + 1)], size), at + Pad(2 * (size + 1)))
  }

  /** readString16Inplace on the contents c at pos: the string, and the position
      after the call.  The length word is consumed even when it is refused. */
  function StringAt(c: seq<Byte>, pos: nat): (Option<seq<Unit>>, nat) {
    if pos + 4 > |c| then (None, pos) else TextAt(c, pos + 4, Int32Of(c[pos..pos + 4]))
  }

  lemma {:induction false} UnitsAppend(s: seq<Unit>, u: Unit)
    ensures UnitsBytes(s + [u]) == UnitsBytes(s) + Little(u, 2)
  {
    if s == [] {
      assert s + [u] == [u] && UnitsBytes([u]) == Little(u, 2) + UnitsBytes([]);
    } else {
      assert (s + [u])[1..] == s[1..] + [u];
      UnitsAppend(s[1..], u);
    }
  }

  lemma LittleZero()
    ensures Little(0, 2) == [0, 0]
  {
    assert Little(0, 1) == [0] + Little(0, 0);
  }

  lemma TextRoundTrip(s: seq<Unit>)
    ensures UnitsOf(UnitsBytes(s) + [0, 0], |s| + 1) == s + [0]
  {
    UnitsAppend(s, 0);
    LittleZero();
    UnitsRoundTrip(s + [0]);
  }

  lemma StandsInside(c: seq<Byte>, pos: nat, a: seq<Byte>, b: seq<Byte>, d: seq<Byte>)
    requires StandsAt(c, pos, a + (b + d))
    ensures StandsAt(c, pos, a) && StandsAt(c, pos + |a|, b)
  {
    var w := c[pos..pos + |a + (b + d)|];
    assert c[pos..pos + |a|] == w[..|a|] == a;
    forall i | 0 <= i < |b| ensures c[pos + |a|..pos + |a| + |b|][i] == b[i] {
      assert w[|a| + i] == (b + d)[i];
    }
  }

  // A null or bounded string that was marshalled is what StringAt finds.
  lemma StringRoundTrip(c: seq<Byte>, pos: nat, s: Option<seq<Unit>>)
    requires s.Some? ==> 2 * (|s.value| + 1) <= INT32_MAX
    requires StandsAt(c, pos, StringBytes(s))
    ensures StringAt(c, pos) == (s, pos + |StringBytes(s)|)
  {
    if s.None? {
      Int32RoundTrip(-1);
    } else {
      var text := UnitsBytes(s.value) + [0, 0];
      StandsInside(c, pos, Int32Bytes(|s.value|), text, Zeros(Pad(|text|) - |text|));
      Int32RoundTrip(|s.value|);
      TextRoundTrip(s.value);
      TerminatedText(text, s.value);
      TextHere(c, pos + 4, text, |s.value|);
      StringHere(c, pos, Int32Bytes(|s.value|));
    }
  }

  lemma StringHere(c: seq<Byte>, pos: nat, head: seq<Byte>)
    requires |head| == 4 && StandsAt(c, pos, head)
    ensures StringAt(c, pos) == TextAt(c, pos + 4, Int32Of(head))
  {}

  lemma TerminatedText(text: seq<Byte>, s: seq<Unit>)
    requires |text| == 2 * (|s| + 1) && UnitsOf(text, |s| + 1) == s + [0]
    ensures TextOf(text, |s|) == Some(s)
  {
    assert (s + [0])[..|s|] == s;
  }

  lemma TextHere(c: seq<Byte>, at: nat, text: seq<Byte>, size: nat)
    requires |text| == 2 * (size + 1) && TextFits(c, at, size) && StandsAt(c, at, text)
    ensures TextAt(c, at, size).0 == TextOf(text, size) && TextAt(c, at, size).1 == at + Pad(2 * (size + 1))
  {}

  /** The bytes written at pos over c, which they may extend. */
  function Splice(c: seq<Byte>, pos: nat, bytes: seq<Byte>): (r: seq<Byte>)
    requires pos <= |c|
    ensures |r| == Max(|c|, pos + |bytes|)
  {
    seq(Max(|c|, pos + |bytes|), i requires 0 <= i < Max(|c|, pos + |bytes|) =>
      if pos <= i < pos + |bytes| then bytes[i - pos] else c[i])
  }
}

/** The growable buffer (libril/parcel.cpp).  Fresh memory holds anything. */
module Parcels {
  import opened Basics
  import opened ParcelFormat

  datatype Status = NoError | NoMemory | BadValue | NotEnoughData

  // growData lets a parcel of this size take len more bytes.
  predicate GrowthFits(size: nat, len: nat, sizeMax: nat) {
    && len <= INT32_MAX && size + len <= sizeMax / 3
    && size < Grown(size, len) <= INT32_MAX
  }

  function Grown(size: nat, len: nat): nat {
    Max((size + len) * 3 / 2, 128)
  }

  // There is room for len bytes at pos, or growData makes it.
  predicate Room(pos: nat, size: nat, capacity: nat, len: nat, sizeMax: nat) {
    pos + len <= capacity || GrowthFits(size, len, sizeMax)
  }

  // The capacity after len bytes were made room for at pos.
  function CapacityFor(pos: nat, size: nat, capacity: nat, len: nat): nat {
    if pos + len <= capacity then capacity else Grown(size, len)
  }

  // The masked word: the bytes a[from..to] cleared, no others touched.
  method ZeroTail(a: array<Byte>, from: nat, to: nat)
    requires from <= to <= a.Length
    modifies a
    ensures forall k :: from <= k < to ==> a[k] == 0
    ensures forall k :: 0 <= k < a.Length && !(from <= k < to) ==> a[k] == old(a[k])
  {
    for i := from to to
      invariant forall k :: from <= k < i ==> a[k] == 0
      invariant forall k :: 0 <= k < a.Length && !(from <= k < i) ==> a[k] == old(a[k])
    {
      a[i] := 0;
    }
  }

  // memcpy
  method CopyTo(a: array<Byte>, start: nat, bytes: seq<Byte>)
    requires start + |bytes| <= a.Length
    modifies a
    ensures forall k :: start <= k < start + |bytes| ==> a[k] == bytes[k - start]
    ensures forall k :: 0 <= k < a.Length && !(start <= k < start + |bytes|) ==> a[k] == old(a[k])
  {
    for i := 0 to |bytes|
      invariant forall k :: start <= k < start + i ==> a[k] == bytes[k - start]
      invariant forall k :: 0 <= k < a.Length && !(start <= k < start + i) ==> a[k] == old(a[k])
    {
      a[start + i] := bytes[i];
    }
  }

  lemma PaddedAt(data: seq<Byte>)
    ensures forall k :: 0 <= k < |data| ==> Padded(data)[k] == data[k]
    ensures forall k :: |data| <= k < Pad(|data|) ==> Padded(data)[k] == 0
  {}

  lemma SpliceByElements(r: seq<Byte>, c: seq<Byte>, pos: nat, bytes: seq<Byte>)
    requires pos <= |c| && |r| == Max(|c|, pos + |bytes|)
    requires forall k :: 0 <= k < pos ==> r[k] == c[k]
    requires forall k :: pos <= k < pos + |bytes| ==> r[k] == bytes[k - pos]
    requires forall k :: pos + |bytes| <= k < |c| ==> r[k] == c[k]
    ensures r == Splice(c, pos, bytes)
  {}

  // The conversion of a size_t to the int32 that writeInt32 takes.
  function LengthWord(n: nat): (len: Int32)
    ensures n <= INT32_MAX ==> len == n
  {
    Signed(n % TWO_32, TWO_32)
  }

  class Parcel {
    const sizeMax: nat           // SIZE_MAX of the platform
    var mError: Status
    var mData: array?<Byte>
    var mDataSize: nat
    var mDataCapacity: nat
    var mDataPos: nat
    var allocations: seq<bool>   // the outcomes of the next allocations; the others succeed
    ghost var carried: nat       // bytes carried along by reallocations so far
    ghost var mark: nat          // the size the last growth was for

    ghost predicate Valid()
      reads this
    {
      && sizeMax >= SIZE_MAX_32
      && mDataPos <= mDataSize <= mDataCapacity <= INT32_MAX
      && (if mData == null then mDataCapacity == 0 else mDataCapacity == mData.Length)
    }

    function Contents(): (s: seq<Byte>)
      requires Valid()
      reads this, mData
      ensures |s| == mDataSize
    {
      if mData == null then [] else mData[..mDataSize]
    }

    /** Amortised cost of an append-only run: what reallocations have carried is
        at most three times the size. */
    ghost predicate Amortised()
      reads this
    {
      carried <= 3 * mark && mark <= mDataSize && 3 * mark <= 2 * mDataCapacity + 1
    }

    constructor (sizeMax: nat, allocations: seq<bool>)
      requires sizeMax >= SIZE_MAX_32
      ensures Valid() && Contents() == [] && mDataPos == 0 && mData == null
      ensures mError == NoError && mDataCapacity == 0 && this.sizeMax == sizeMax && this.allocations == allocations
      ensures carried == 0 && Amortised()
    {
      this.sizeMax := sizeMax;
      this.allocations := allocations;
      mError := NoError;
      mData := null;
      mDataSize, mDataCapacity, mDataPos := 0, 0, 0;
      carried, mark := 0, 0;
    }

    // malloc or realloc: n bytes beginning with the old ones, or null
    method Realloc(n: nat) returns (data: array?<Byte>)
      requires Valid()
      modifies this`allocations
      ensures old(allocations) == [] ==> data != null && allocations == []
      ensures old(allocations) != [] && !old(allocations)[0] ==> data == null
      ensures data != null ==> (
        && fresh(data) && data.Length == n
        && forall i :: 0 <= i < mDataCapacity && i < n ==> data[i] == mData[i])
    {
      var ok := true;
      if allocations != [] {
        ok := allocations[0];
        allocations := allocations[1..];
      }
      if !ok {
        return null;
      }
      data := new Byte[n];
      ghost var left := allocations;
      for i := 0 to Min(mDataCapacity, n)
        invariant allocations == left
        invariant forall k :: 0 <= k < i ==> data[k] == mData[k]
      {
        data[i] := mData[i];
      }
    }

    /** continueWrite, asked for more room than there is. */
    method ContinueWrite(desired: nat) returns (err: Status)
      requires Valid() && desired > mDataCapacity
      modifies this
      ensures Valid() && mDataSize == old(mDataSize) && mDataPos == old(mDataPos) && mark == old(mark)
      ensures Contents() == old(Contents())
      ensures err == NoError ==> mDataCapacity == desired <= INT32_MAX && mData != null && fresh(mData)
                                 && mError == old(mError) && carried == old(carried) + old(mDataCapacity)
      ensures err != NoError ==> mData == old(mData) && mDataCapacity == old(mDataCapacity) && carried == old(carried)
      ensures desired > INT32_MAX ==> err == BadValue && mError == old(mError)
      ensures desired <= INT32_MAX && err != NoError ==> err == mError == NoMemory
      ensures old(allocations) == [] ==> allocations == [] && (desired <= INT32_MAX ==> err == NoError)
    {
      if desired > INT32_MAX {
        return BadValue;
      }
      var data := Realloc(desired);
      if data == null {
        mError := NoMemory;
        return NoMemory;
      }
      carried := carried + mDataCapacity;
      mData := data;
      mDataCapacity := desired;
      return NoError;
    }

    /** growData, called with too little room: a success makes room for len more
        bytes, so that its callers need not check again. */
    method GrowData(len: nat) returns (err: Status)
      requires Valid() && mDataPos + len > mDataCapacity
      modifies this
      ensures Valid() && mDataSize == old(mDataSize) && mDataPos == old(mDataPos) && mark == old(mark)
      ensures Contents() == old(Contents())
      ensures err == NoError ==> mDataCapacity == Grown(mDataSize, len)
      ensures err == NoError ==> mDataCapacity >= mDataPos + len && mData != null && fresh(mData)
                                 && mError == old(mError) && carried == old(carried) + old(mDataCapacity)
                                 && 3 * (mDataSize + len) <= 2 * mDataCapacity + 1
      ensures err != NoError ==> mData == old(mData) && mDataCapacity == old(mDataCapacity) && carried == old(carried)
      ensures !GrowthFits(mDataSize, len, sizeMax) ==> err != NoError && mError == old(mError)
      ensures GrowthFits(mDataSize, len, sizeMax) && err != NoError ==> err == mError == NoMemory
      ensures old(allocations) == [] ==> allocations == [] && (GrowthFits(mDataSize, len, sizeMax) ==> err == NoError)
    {
      if len > INT32_MAX {
        return BadValue;
      }
      if len > sizeMax - mDataSize {
        return NoMemory;
      }
      if mDataSize + len > sizeMax / 3 {
        return NoMemory;
      }
      var newSize := (mDataSize + len) * 3 / 2;
      if newSize <= mDataSize {
        return NoMemory;
      }
      err := ContinueWrite(Max(newSize, 128));
    }
 
    /** finishWrite */
    method FinishWrite(len: nat)
      requires sizeMax >= SIZE_MAX_32 && len <= INT32_MAX
      requires mDataPos <= mDataSize <= mDataCapacity && mDataPos + len <= mDataCapacity
      modifies this`mDataPos, this`mDataSize
      ensures mDataPos == old(mDataPos) + len && mDataSize == Max(old(mDataSize), mDataPos)
    {
      mDataPos := mDataPos + len;
      if mDataPos > mDataSize {
        mDataSize := mDataPos;
      }
    }

    // There is or can be room for len more bytes.
    ghost predicate Admits(len: nat)
      reads this
    {
      Room(mDataPos, mDataSize, mDataCapacity, len, sizeMax)
    }

    // The same for a text of n units behind a length word at the position.
    ghost predicate AdmitsText(n: nat)
      reads this
    {
      && 2 * n + 2 <= INT32_MAX
      && Room(mDataPos + 4, Max(mDataSize, mDataPos + 4), CapacityFor(mDataPos, mDataSize, mDataCapacity, 4), Pad(2 * n + 2), sizeMax)
    }

    /** Makes sure of the room that every write needs at the position. */
    method EnsureRoom(len: nat) returns (err: Status)
      requires Valid()
      modifies this
      ensures Valid() && mDataSize == old(mDataSize) && mDataPos == old(mDataPos)
      ensures Contents() == old(Contents())
      ensures mData == old(mData) || (mData != null && fresh(mData))
      ensures err == NoError ==> mDataPos + len <= mDataCapacity && (len > 0 ==> mData != null)
      ensures mDataPos + len <= old(mDataCapacity) ==> err == NoError
      ensures err == NoError ==> mDataCapacity == CapacityFor(mDataPos, mDataSize, old(mDataCapacity), len)
      ensures err == NoError ==> mError == old(mError)
      ensures err == NoError && old(Amortised()) && mDataPos == mDataSize ==> (
        carried <= 3 * mark && mark <= mDataSize + len && 3 * mark <= 2 * mDataCapacity + 1)
      ensures err != NoError ==> (old(Amortised()) ==> Amortised())
      ensures !old(Admits(len)) ==> err != NoError && mError == old(mError)
      ensures old(Admits(len)) && err != NoError ==> err == mError == NoMemory
      ensures old(allocations) == [] ==> allocations == [] && (old(Admits(len)) ==> err == NoError)
    {
      if mDataPos + len <= mDataCapacity {
        return NoError;
      }
      err := GrowData(len);
      if err == NoError {
        mark := mDataSize + len;
      }
    }

    // len bytes at pos over c are ready to be filled, their padding zeroed.
    ghost predicate Reserved(c: seq<Byte>, pos: nat, len: nat)
      requires Valid()
      reads this, mData
    {
      && pos <= |c| && mDataSize == Max(|c|, pos + Pad(len))
      && (forall k :: 0 <= k < pos ==> Contents()[k] == c[k])
      && (forall k :: pos + Pad(len) <= k < |c| ==> Contents()[k] == c[k])
      && (forall k :: pos + len <= k < pos + Pad(len) ==> Contents()[k] == 0)
    }

    // With room there: the padding zeroed and the position moved.
    method Reserve(len: nat)
      requires Valid() && mData != null && Pad(len) <= INT32_MAX && mDataPos + Pad(len) <= mDataCapacity
      modifies this`mDataPos, this`mDataSize, mData
      ensures Valid() && mDataPos == old(mDataPos) + Pad(len)
      ensures Reserved(old(Contents()), old(mDataPos), len)
    {
      var padded := Pad(len);
      // there are padding bytes to clear
      if padded != len {
        ZeroTail(mData, mDataPos + len, mDataPos + padded);
      }
      FinishWrite(padded);
    }

    /** writeInplace: reserves len bytes at the position, with its padding
        zeroed, and gives where they start; the null pointer is None. */
    method WriteInplace(len: nat) returns (start: Option<nat>, ghost ok: bool)
      requires Valid()
      modifies this, mData
      ensures Valid()
      ensures start.Some? ==> ok
      ensures ok && start.None? ==> len == 0 && mData == null
      ensures mData == old(mData) || (mData != null && fresh(mData))
      ensures !ok ==> mDataPos == old(mDataPos) && Contents() == old(Contents())
      ensures start.Some? ==> mData != null && start.value == old(mDataPos)
      ensures ok ==> (
        && len <= INT32_MAX && mError == old(mError)
        && mDataPos == old(mDataPos) + Pad(len) && Reserved(old(Contents()), old(mDataPos), len))
      ensures old(Amortised()) && (ok ==> old(mDataPos) == old(mDataSize)) ==> Amortised()
      ensures !(len <= INT32_MAX && old(Admits(Pad(len)))) ==> !ok && mError == old(mError)
      ensures len <= INT32_MAX && old(Admits(Pad(len))) && !ok ==> mError == NoMemory
      ensures old(allocations) == [] ==> allocations == [] && (len <= INT32_MAX && old(Admits(Pad(len))) ==> ok)
    {
      if len > INT32_MAX {
        return None, false;
      }
      var padded := Pad(len);
      // the end of the reservation must be a size_t
      if mDataPos + padded > sizeMax {
        return None, false;
      }
      var err := EnsureRoom(padded);
      if err != NoError {
        return None, false;
      }
      ok := true;
      if mData == null {
        return None, true;
      }
      start := Some(mDataPos);
      Reserve(len);
    }
 
    // memcpy
    method Put(start: nat, bytes: seq<Byte>)
      requires Valid() && mData != null && start + |bytes| <= mDataSize
      modifies mData
      ensures Valid()
      ensures forall k :: start <= k < start + |bytes| ==> Contents()[k] == bytes[k - start]
      ensures forall k :: 0 <= k < mDataSize && !(start <= k < start + |bytes|) ==> Contents()[k] == old(Contents())[k]
    {
      CopyTo(mData, start, bytes);
    }

    // memcpy into the bytes reserved for it
    method Fill(start: nat, bytes: seq<Byte>, ghost c: seq<Byte>)
      requires Valid() && mData != null && Reserved(c, start, |bytes|)
      modifies mData
      ensures Valid() && Contents() == Splice(c, start, Padded(bytes))
    {
      Put(start, bytes);
      PaddedAt(bytes);
      SpliceByElements(Contents(), c, start, Padded(bytes));
    }

    /** The new contents of a write of these bytes at the old position. */
    ghost predicate Wrote(c: seq<Byte>, pos: nat, bytes: seq<Byte>)
      requires Valid() && pos <= |c|
      reads this, mData
    {
      Contents() == Splice(c, pos, bytes) && mDataPos == pos + |bytes|
    }

    /** write.  The status is "no error" exactly when the bytes were written or
        the parcel may not grow that far, when they never are: growData's
        refusals leave mError as it was, and mError is what is returned. */
    method Write(data: seq<Byte>) returns (status: Status, ghost ok: bool)
      requires Valid()
      modifies this, mData
      ensures Valid() && (mData == old(mData) || (mData != null && fresh(mData)))
      ensures ok ==> mError == old(mError)
      ensures ok ==> Wrote(old(Contents()), old(mDataPos), Padded(data))
      ensures !ok ==> mDataPos == old(mDataPos) && Contents() == old(Contents())
      ensures old(Amortised()) && (ok ==> old(mDataPos) == old(mDataSize)) ==> Amortised()
      ensures old(mError) == NoError ==>
                (status == NoError <==> ok || (|data| <= INT32_MAX && !old(Admits(Pad(|data|)))))
      ensures !old(Admits(Pad(|data|))) ==> !ok
      ensures old(mError) == NoError && old(allocations) == [] ==>
                ((status == NoError ==> ok) <==> |data| > INT32_MAX || old(Admits(Pad(|data|))))
      ensures old(allocations) == [] ==> allocations == [] && (|data| <= INT32_MAX && old(Admits(Pad(|data|))) ==> ok)
    {
      if |data| > INT32_MAX {
        return BadValue, false;
      }
      var d;
      d, ok := WriteInplace(|data|);
      if d.Some? {
        Fill(d.value, data, old(Contents()));
        status := NoError;
      } else {
        status := mError;
      }
    }
 
    /** writeAligned, for the 4 or 8 bytes of an integer */
    method WriteAligned(val: seq<Byte>) returns (err: Status)
      requires Valid() && (|val| == 4 || |val| == 8)
      modifies this, mData
      ensures Valid() && (mData == old(mData) || (mData != null && fresh(mData)))
      ensures err == NoError ==> Wrote(old(Contents()), old(mDataPos), val) && mError == old(mError)
      ensures err != NoError ==> mDataPos == old(mDataPos) && Contents() == old(Contents())
      ensures old(Amortised()) && (err == NoError ==> old(mDataPos) == old(mDataSize)) ==> Amortised()
      ensures old(mDataPos) + |val| <= old(mDataCapacity) ==> err == NoError
      ensures err == NoError ==> mDataSize == Max(old(mDataSize), mDataPos)
                                 && mDataCapacity == CapacityFor(old(mDataPos), old(mDataSize), old(mDataCapacity), |val|)
      ensures !old(Admits(|val|)) ==> err != NoError
      ensures old(allocations) == [] ==> allocations == [] && (old(Admits(|val|)) ==> err == NoError)
    {
      err := EnsureRoom(|val|);
      if err == NoError {
        assert Pad(|val|) == |val|;
        var start := mDataPos;
        Reserve(|val|);
        Fill(start, val, old(Contents()));
        assert Padded(val) == val;
      }
    }
 
    /** writeInt32, writeInt64 */
    method WriteInt32(val: Int32) returns (err: Status)
      requires Valid()
      modifies this, mData
      ensures Valid() && (mData == old(mData) || (mData != null && fresh(mData)))
      ensures err == NoError ==> Wrote(old(Contents()), old(mDataPos), Int32Bytes(val)) && mError == old(mError)
      ensures err != NoError ==> mDataPos == old(mDataPos) && Contents() == old(Contents())
      ensures old(Amortised()) && (err == NoError ==> old(mDataPos) == old(mDataSize)) ==> Amortised()
      ensures old(mDataPos) + 4 <= old(mDataCapacity) ==> err == NoError
      ensures err == NoError ==> mDataSize == Max(old(mDataSize), mDataPos)
                                 && mDataCapacity == CapacityFor(old(mDataPos), old(mDataSize), old(mDataCapacity), 4)
      ensures !old(Admits(4)) ==> err != NoError
      ensures old(allocations) == [] ==> allocations == [] && (old(Admits(4)) ==> err == NoError)
    {
      err := WriteAligned(Int32Bytes(val));
    }

    method WriteInt64(val: Int64) returns (err: Status)
      requires Valid()
      modifies this, mData
      ensures Valid() && (mData == old(mData) || (mData != null && fresh(mData)))
      ensures err == NoError ==> Wrote(old(Contents()), old(mDataPos), Int64Bytes(val)) && mError == old(mError)
      ensures err != NoError ==> mDataPos == old(mDataPos) && Contents() == old(Contents())
      ensures old(Amortised()) && (err == NoError ==> old(mDataPos) == old(mDataSize)) ==> Amortised()
      ensures old(allocations) == [] ==> allocations == [] && (old(Admits(8)) ==> err == NoError)
    {
      err := WriteAligned(Int64Bytes(val));
    }

    // The text of a string in place, and its terminating unit.
    method WriteText(str: seq<Unit>) returns (ghost ok: bool, err: Status)
      requires Valid()
      modifies this, mData
      ensures Valid() && (mData == old(mData) || (mData != null && fresh(mData)))
      ensures ok ==> err == NoError && mError == old(mError)
      ensures ok ==> 2 * |str| + 2 <= INT32_MAX && Wrote(old(Contents()), old(mDataPos), Padded(UnitsBytes(str) + [0, 0]))
      ensures !ok ==> mDataPos == old(mDataPos) && Contents() == old(Contents()) && err == mError
      ensures old(Amortised()) && (ok ==> old(mDataPos) == old(mDataSize)) ==> Amortised()
      ensures !(2 * |str| + 2 <= INT32_MAX && old(Admits(Pad(2 * |str| + 2)))) ==> !ok && mError == old(mError)
      ensures 2 * |str| + 2 <= INT32_MAX && old(Admits(Pad(2 * |str| + 2))) && !ok ==> mError == NoMemory
      ensures old(allocations) == [] ==> allocations == [] && (2 * |str| + 2 <= INT32_MAX && old(Admits(Pad(2 * |str| + 2))) ==> ok)
    {
      var len := 2 * |str|;
      var data;
      data, ok := WriteInplace(len + 2);
      if data.None? {
        return false, mError;
      }
      FillText(data.value, str, old(Contents()));
      err := NoError;
    }

    // the units, then the terminating one
    method FillText(start: nat, str: seq<Unit>, ghost c: seq<Byte>)
      requires Valid() && mData != null && Reserved(c, start, 2 * |str| + 2)
      modifies mData
      ensures Valid() && Contents() == Splice(c, start, Padded(UnitsBytes(str) + [0, 0]))
    {
      Put(start, UnitsBytes(str));
      Put(start + 2 * |str|, [0, 0]);
      ghost var text := UnitsBytes(str) + [0, 0];
      PaddedAt(text);
      SpliceByElements(Contents(), c, start, Padded(text));
    }

    // the text of a string behind the length word written at pos over c
    method WriteRest(str: seq<Unit>, ghost c: seq<Byte>, ghost pos: nat) returns (ghost ok: bool, err: Status)
      requires Valid() && pos <= |c|
      requires Wrote(c, pos, Int32Bytes(LengthWord(|str|)))
      modifies this, mData
      ensures Valid() && (mData == old(mData) || (mData != null && fresh(mData)))
      ensures ok ==> err == NoError && mError == old(mError)
      ensures ok ==> |str| <= INT32_MAX && Wrote(c, pos, StringBytes(Some(str)))
      ensures !ok ==> err == mError && mDataSize == old(mDataSize) && Wrote(c, pos, Int32Bytes(LengthWord(|str|)))
      ensures old(Amortised()) && (ok ==> old(mDataPos) == old(mDataSize)) ==> Amortised()
      ensures !(2 * |str| + 2 <= INT32_MAX && old(Admits(Pad(2 * |str| + 2)))) ==> !ok && mError == old(mError)
      ensures 2 * |str| + 2 <= INT32_MAX && old(Admits(Pad(2 * |str| + 2))) && !ok ==> mError == NoMemory
      ensures old(allocations) == [] ==> allocations == [] && (2 * |str| + 2 <= INT32_MAX && old(Admits(Pad(2 * |str| + 2))) ==> ok)
    {
      ghost var mid := Contents();
      ok, err := WriteText(str);
      if ok {
        StringWritten(c, pos, str, mid, Contents());
      }
    }

    // the length word of a text of n units, and whether the text fits behind it
    method WriteHeadWord(n: nat) returns (err: Status)
      requires Valid()
      modifies this, mData
      ensures Valid() && (mData == old(mData) || (mData != null && fresh(mData)))
      ensures err == NoError ==> Wrote(old(Contents()), old(mDataPos), Int32Bytes(LengthWord(n))) && mError == old(mError)
      ensures err == NoError ==> (2 * n + 2 <= INT32_MAX && Admits(Pad(2 * n + 2)) <==> old(AdmitsText(n)))
      ensures err != NoError ==> Untouched(old(Contents()), old(mDataPos), err)
      ensures old(Amortised()) && (err == NoError ==> old(mDataPos) == old(mDataSize)) ==> Amortised()
      ensures old(mDataPos) == old(mDataSize) && err == NoError ==> mDataPos == mDataSize
      ensures !old(Admits(4)) ==> err != NoError
      ensures old(allocations) == [] ==> allocations == [] && (old(Admits(4)) ==> err == NoError)
    {
      err := WriteInt32(LengthWord(n));
    }

    /** writeString16 of a string: nothing, and an error; the whole of it; or
        only its length word, when there is no room for the text.  In the last
        case the status is mError, which a refused growth leaves as it was. */
    method WriteUnits(str: seq<Unit>) returns (err: Status, ghost ok: bool)
      requires Valid()
      modifies this, mData
      ensures Valid() && (mData == old(mData) || (mData != null && fresh(mData)))
      ensures ok ==> err == NoError && mError == old(mError)
      ensures ok ==> |str| <= INT32_MAX && Wrote(old(Contents()), old(mDataPos), StringBytes(Some(str)))
      ensures !ok ==> HeadOnly(old(Contents()), old(mDataPos), |str|, err)
      ensures !old(Admits(4)) ==> !ok && err != NoError
      ensures !old(AdmitsText(|str|)) ==> !ok && (err == mError == old(mError) || Untouched(old(Contents()), old(mDataPos), err))
      ensures old(Admits(4)) && old(AdmitsText(|str|)) && !ok ==> err != NoError
      ensures old(Amortised()) && old(mDataPos) == old(mDataSize) ==> Amortised()
      ensures old(allocations) == [] ==>
                && allocations == []
                && (ok <==> old(Admits(4)) && old(AdmitsText(|str|)))
                && (old(Admits(4)) && !ok ==> err == old(mError) && Wrote(old(Contents()), old(mDataPos), Int32Bytes(LengthWord(|str|))))
    {
      ghost var c, pos := Contents(), mDataPos;
      err := WriteHeadWord(|str|);
      if err != NoError {
        return err, false;
      }
      ok, err := WriteRest(str, c, pos);
    }

    // Nothing was written, and there is an error.
    ghost predicate Untouched(c: seq<Byte>, pos: nat, err: Status)
      requires Valid()
      reads this, mData
    {
      err != NoError && Contents() == c && mDataPos == pos
    }

    // No more than a length word was written; alone, it comes with mError.
    ghost predicate HeadOnly(c: seq<Byte>, pos: nat, n: nat, err: Status)
      requires Valid() && pos <= |c|
      reads this, mData
    {
      || Untouched(c, pos, err)
      || (err == mError && Wrote(c, pos, Int32Bytes(LengthWord(n))))
    }

    /** writeString16.  Without an error before, and with the allocations it
        needs, it reports success for a text it did not write exactly when there
        is room for the length word but not for the text. */
    method WriteString16(str: Option<seq<Unit>>) returns (err: Status, ghost ok: bool)
      requires Valid()
      modifies this, mData
      ensures Valid() && (mData == old(mData) || (mData != null && fresh(mData)))
      ensures ok ==> err == NoError && mError == old(mError)
      ensures ok ==> (str.Some? ==> |str.value| <= INT32_MAX) && Wrote(old(Contents()), old(mDataPos), StringBytes(str))
      ensures !ok && str.None? ==> Untouched(old(Contents()), old(mDataPos), err)
      ensures !ok && str.Some? ==> HeadOnly(old(Contents()), old(mDataPos), |str.value|, err)
      ensures old(Amortised()) && old(mDataPos) == old(mDataSize) ==> Amortised()
      ensures old(allocations) == [] ==>
                && allocations == []
                && (ok <==> old(Admits(4)) && (str.Some? ==> old(AdmitsText(|str.value|))))
                && (old(mError) == NoError ==>
                      (err == NoError && !ok <==> str.Some? && old(Admits(4)) && !old(AdmitsText(|str.value|))))
                && (str.Some? && old(Admits(4)) && !ok ==>
                      err == old(mError) && Wrote(old(Contents()), old(mDataPos), Int32Bytes(LengthWord(|str.value|))))
    {
      if str.None? {
        err := WriteInt32(-1);
        ok := err == NoError;
      } else {
        err, ok := WriteUnits(str.value);
      }
    }

    /** setDataPosition, within the data */
    method SetDataPosition(pos: nat)
      requires Valid() && pos <= mDataSize
      modifies this`mDataPos
      ensures Valid() && mDataPos == pos
    {
      mDataPos := pos;
    }

    /** restartWrite: an empty parcel with room for `desired` bytes */
    method RestartWrite(desired: nat) returns (err: Status)
      requires Valid()
      modifies this
      ensures Valid() && (mData == old(mData) || mData == null || fresh(mData))
      ensures err == NoError ==> mDataSize == mDataPos == 0 && desired <= mDataCapacity
      ensures err != NoError ==> Contents() == old(Contents()) && mDataPos == old(mDataPos)
      ensures desired > INT32_MAX ==> err == BadValue
      ensures old(allocations) == [] && desired <= INT32_MAX ==> err == NoError && allocations == []
      ensures old(allocations) != [] && !old(allocations)[0] && desired > old(mDataCapacity) ==> err != NoError
    {
      if desired > INT32_MAX {
        return BadValue;
      }
      var data := Realloc(desired);
      if data == null && desired > mDataCapacity {
        mError := NoMemory;
        return NoMemory;
      }
      if data != null || desired == 0 {
        mData := data;
        mDataCapacity := desired;
      }
      mDataSize := 0;
      mDataPos := 0;
      carried, mark := 0, 0;
      return NoError;
    }

    /** setData: the parcel becomes these bytes, to be read from the start. */
    method SetData(bytes: seq<Byte>) returns (err: Status)
      requires Valid()
      modifies this, mData
      ensures Valid()
      ensures err == NoError ==> Contents() == bytes && mDataPos == 0
      ensures err != NoError ==> Contents() == old(Contents()) && mDataPos == old(mDataPos)
      ensures |bytes| > INT32_MAX ==> err == BadValue
      ensures old(allocations) == [] && |bytes| <= INT32_MAX ==> err == NoError && allocations == []
      ensures old(allocations) != [] && !old(allocations)[0] && |bytes| > old(mDataCapacity) ==> err != NoError
    {
      err := RestartWrite(|bytes|);
      if err == NoError {
        if mData != null {
          CopyTo(mData, 0, bytes);
        }
        mDataSize := |bytes|;
      }
    }

    /** readInplace and read: len bytes at the position, which moves past their
        padding. */
    method ReadInplace(len: nat) returns (r: Option<seq<Byte>>)
      requires Valid()
      modifies this`mDataPos
      ensures Valid()
      ensures var pos := old(mDataPos);
              if len <= INT32_MAX && pos + Pad(len) <= mDataSize
              then r == Some(Contents()[pos..pos + len]) && mDataPos == pos + Pad(len)
              else r.None? && mDataPos == pos
    {
      if len > INT32_MAX {
        return None;
      }
      if mDataPos + Pad(len) <= mDataSize {
        r := Some(Contents()[mDataPos..mDataPos + len]);
        mDataPos := mDataPos + Pad(len);
      } else {
        r := None;
      }
    }

    /** readAligned, for the 4 or 8 bytes of an integer */
    method ReadAligned(n: nat) returns (r: Option<seq<Byte>>)
      requires Valid()
      modifies this`mDataPos
      ensures Valid()
      ensures var pos := old(mDataPos);
              if pos + n <= mDataSize
              then r == Some(Contents()[pos..pos + n]) && mDataPos == pos + n
              else r.None? && mDataPos == pos
    {
      if mDataPos + n <= mDataSize {
        r := Some(Contents()[mDataPos..mDataPos + n]);
        mDataPos := mDataPos + n;
      } else {
        r := None;
      }
    }

    /** readInt32: zero when there is not enough data */
    method ReadInt32() returns (val: Int32)
      requires Valid()
      modifies this`mDataPos
      ensures Valid()
      ensures var pos := old(mDataPos);
              if pos + 4 <= mDataSize
              then val == Int32Of(Contents()[pos..pos + 4]) && mDataPos == pos + 4
              else val == 0 && mDataPos == pos
    {
      var bytes := ReadAligned(4);
      val := if bytes.Some? then Int32Of(bytes.value) else 0;
    }

    // the text of readString16Inplace, its length read
    method ReadText(size: Int32) returns (s: Option<seq<Unit>>)
      requires Valid()
      modifies this`mDataPos
      ensures Valid()
      ensures (s, mDataPos) == TextAt(Contents(), old(mDataPos), size)
    {
      // a length whose successor is an int32
      if size < 0 || size == INT32_MAX {
        return None;
      }
      var len := 2 * (size + 1);
      var str := ReadInplace(len);
      if str.None? {
        return None;
      }
      TextHere(Contents(), old(mDataPos), str.value, size);
      s := TextOf(str.value, size);
    }

    /** readString16Inplace */
    method ReadString16() returns (s: Option<seq<Unit>>)
      requires Valid()
      modifies this`mDataPos
      ensures Valid()
      ensures (s, mDataPos) == StringAt(Contents(), old(mDataPos))
    {
      var size := ReadInt32();
      s := ReadText(size);
    }
  }

  // Sizes whose growth stays within an int32.
  predicate Small(size: nat) {
    3 * size <= 2 * INT32_MAX
  }

  lemma SmallAdmits(p: Parcel, len: nat)
    requires p.Valid() && p.mDataPos == p.mDataSize && Small(p.mDataSize + len)
    ensures p.Admits(len)
  {
    SmallRoom(p.mDataSize, p.mDataCapacity, len, p.sizeMax);
  }

  lemma SmallAdmitsString(p: Parcel, s: Option<seq<Unit>>)
    requires p.Valid() && p.mDataPos == p.mDataSize && (s.Some? ==> |s.value| <= INT32_MAX)
    requires Small(p.mDataSize + |StringBytes(s)|)
    ensures p.Admits(4) && (s.Some? ==> p.AdmitsText(|s.value|))
  {
    SmallAdmits(p, 4);
    if s.Some? {
      SmallRoom(p.mDataSize + 4, CapacityFor(p.mDataPos, p.mDataSize, p.mDataCapacity, 4), Pad(2 * |s.value| + 2), p.sizeMax);
    }
  }

  lemma SmallRoom(size: nat, capacity: nat, len: nat, sizeMax: nat)
    requires Small(size + len) && size <= capacity && sizeMax >= SIZE_MAX_32
    ensures Room(size, size, capacity, len, sizeMax)
  {
    if size + len > capacity {
      assert size + len <= sizeMax / 3;
      assert (size + len) * 3 / 2 <= INT32_MAX;
      assert (size + len) * 3 / 2 > size || size < 128;
    }
  }

  // A length no parcel can grow by.
  const TOO_LONG: nat := 0x6000_0000

  /** write reports success for bytes it did not write: these. */
  method WriteIsSilent(sizeMax: nat) returns (status: Status, contents: seq<Byte>)
    requires sizeMax >= SIZE_MAX_32
    ensures status == NoError && contents == []
  {
    var p := new Parcel(sizeMax, []);
    var data := Zeros(TOO_LONG);
    PadIsMask(TOO_LONG);
    ghost var ok;
    status, ok := p.Write(data);
    contents := p.Contents();
  }

  /** writeString16 reports success for a text of which it wrote the length
      alone: this.  Read back, it is no string. */
  method WriteString16IsSilent(sizeMax: nat) returns (status: Status, contents: seq<Byte>, back: Option<seq<Unit>>)
    requires sizeMax >= SIZE_MAX_32
    ensures status == NoError && contents == Int32Bytes(TOO_LONG / 2)
    ensures back.None?
  {
    var p := new Parcel(sizeMax, []);
    var text: seq<Unit> := seq(TOO_LONG / 2, _ => 'a' as int);
    PadIsMask(TOO_LONG + 2);
    ghost var ok;
    status, ok := p.WriteString16(Some(text));
    contents := p.Contents();
    assert contents == Int32Bytes(TOO_LONG / 2);
    assert contents[0..4] == contents;
    Int32RoundTrip(TOO_LONG / 2);
    p.SetDataPosition(0);
    back := p.ReadString16();
  }

  // A length word and a text written one after the other are a string.
  lemma StringWritten(c: seq<Byte>, pos: nat, s: seq<Unit>, mid: seq<Byte>, r: seq<Byte>)
    requires pos <= |c| && |s| <= INT32_MAX
    requires mid == Splice(c, pos, Int32Bytes(|s|))
    requires r == Splice(mid, pos + 4, Padded(UnitsBytes(s) + [0, 0]))
    ensures r == Splice(c, pos, StringBytes(Some(s)))
  {
    SpliceTwice(c, pos, Int32Bytes(|s|), Padded(UnitsBytes(s) + [0, 0]));
  }

  lemma SpliceTwice(c: seq<Byte>, pos: nat, a: seq<Byte>, b: seq<Byte>)
    requires pos <= |c|
    ensures Splice(Splice(c, pos, a), pos + |a|, b) == Splice(c, pos, a + b)
  {}
}

/** Writing a list of items and reading it back. */
module ParcelRoundTrip {
  import opened Basics
  import opened ParcelFormat
  import opened Parcels

  // What a reader has to know about an item: its type, and a raw item's length.
  datatype Kind = KindI32 | KindI64 | KindRaw(len: nat) | KindStr

  function KindOf(item: Item): Kind {
    match item
    case I32(_) => KindI32
    case I64(_) => KindI64
    case Raw(b) => KindRaw(|b|)
    case Str(_) => KindStr
  }

  lemma AllSizedSplit(items: seq<Item>)
    requires AllSized(items) && items != []
    ensures Sized(items[0]) && AllSized(items[1..])
  {
    assert Sized(items[0]);
    forall i | 0 <= i < |items[1..]| ensures Sized(items[1..][i]) { assert Sized(items[i + 1]); }
  }

  /** Every marshalled item keeps the position a multiple of four. */
  lemma {:induction false} Aligned(items: seq<Item>)
    requires AllSized(items)
    ensures |MarshalAll(items)| % 4 == 0
  {
    if items != [] {
      AllSizedSplit(items);
      Aligned(items[1..]);
      ItemAligned(items[0]);
      SumOfFours(Marshal(items[0]), MarshalAll(items[1..]));
    }
  }

  lemma ItemAligned(item: Item)
    requires Sized(item)
    ensures |Marshal(item)| % 4 == 0
  {
    match item {
      case I32(_) =>
      case I64(_) =>
      case Raw(b) => PadIsMask(|b|);
      case Str(s) => StringAligned(s);
    }
  }

  lemma StringAligned(s: Option<seq<Unit>>)
    requires s.Some? ==> |s.value| <= INT32_MAX
    ensures |StringBytes(s)| % 4 == 0
  {
    if s.Some? {
      var text := UnitsBytes(s.value) + [0, 0];
      PadIsMask(|text|);
      SumOfFours(Int32Bytes(|s.value|), Padded(text));
    }
  }

  lemma SumOfFours(a: seq<Byte>, b: seq<Byte>)
    requires |a| % 4 == 0 && |b| % 4 == 0
    ensures |a + b| % 4 == 0
  {}

  method WriteInteger(p: Parcel, item: Item) returns (ghost ok: bool)
    requires p.Valid() && p.mDataPos == p.mDataSize && p.Amortised()
    requires item.I32? || item.I64?
    modifies p, p.mData
    ensures p.Valid() && p.Amortised() && (p.mData == old(p.mData) || (p.mData != null && fresh(p.mData)))
    ensures ok ==> p.Wrote(old(p.Contents()), old(p.mDataPos), Marshal(item))
    ensures !ok ==> p.mDataPos == old(p.mDataPos) && p.Contents() == old(p.Contents())
    ensures old(p.allocations) == [] ==> p.allocations == [] && (old(p.Admits(|Marshal(item)|)) ==> ok)
  {
    var err;
    match item {
      case I32(v) => err := p.WriteInt32(v);
      case I64(v) => err := p.WriteInt64(v);
    }
    ok := err == NoError;
  }

  method WriteItem(p: Parcel, item: Item) returns (ghost ok: bool)
    requires p.Valid() && p.mDataPos == p.mDataSize && p.Amortised()
    requires Sized(item)
    modifies p, p.mData
    ensures p.Valid() && p.Amortised() && (p.mData == old(p.mData) || (p.mData != null && fresh(p.mData)))
    ensures p.mDataPos == p.mDataSize
    ensures ok ==> p.Contents() == old(p.Contents()) + Marshal(item)
    ensures old(p.allocations) == [] ==> p.allocations == [] && (Small(old(p.mDataSize) + |Marshal(item)|) ==> ok)
  {
    ghost var c, bytes := p.Contents(), Marshal(item);
    if Small(p.mDataSize + |bytes|) { SmallAdmits(p, |bytes|); }
    var err := NoError;
    match item {
      case Raw(b) => err, ok := p.Write(b);
      case Str(s) =>
        if Small(p.mDataSize + |bytes|) { SmallAdmitsString(p, s); }
        err, ok := p.WriteString16(s);
      case _ => ok := WriteInteger(p, item);
    }
    if ok {
      WroteAtEnd(p, c, bytes);
    } else {
      StillAtEnd(p, c, item, err);
    }
  }

  // What a failed write has left: nothing, or the length word of a string.
  ghost predicate Left(p: Parcel, c: seq<Byte>, item: Item, err: Status)
    requires p.Valid()
    reads p, p.mData
  {
    || (p.mDataPos == |c| && p.Contents() == c)
    || (item.Str? && item.str.Some? && p.HeadOnly(c, |c|, |item.str.value|, err))
  }

  lemma StillAtEnd(p: Parcel, c: seq<Byte>, item: Item, err: Status)
    requires p.Valid() && Left(p, c, item, err)
    ensures p.mDataPos == p.mDataSize
  {}

  lemma WroteAtEnd(p: Parcel, c: seq<Byte>, b: seq<Byte>)
    requires p.Valid() && p.Wrote(c, |c|, b)
    ensures p.mDataPos == p.mDataSize && p.Contents() == c + b
  {}

  /** An append-only run over any list of items: with the allocations and the
      size it needs, everything is written, in order; and whatever happens the
      reallocations have carried at most three times the final size. */
  method WriteAll(p: Parcel, items: seq<Item>) returns (ghost ok: bool)
    requires p.Valid() && p.mDataPos == p.mDataSize && p.Amortised()
    requires AllSized(items)
    modifies p, p.mData
    ensures p.Valid() && p.Amortised()
    ensures p.mData == old(p.mData) || (p.mData != null && fresh(p.mData))
    ensures p.mDataPos == p.mDataSize
    ensures ok ==> p.Contents() == old(p.Contents()) + MarshalAll(items)
    ensures old(p.allocations) == [] && Small(old(p.mDataSize) + |MarshalAll(items)|) ==> ok
    decreases |items|
  {
    if items == [] {
      return true;
    }
    AllSizedSplit(items);
    ghost var c, size := p.Contents(), |MarshalAll(items)|;
    ok := WriteItem(p, items[0]);
    ghost var mid := p.Contents();
    ghost var rest := WriteAll(p, items[1..]);
    if ok && rest {
      AppendTwice(c, Marshal(items[0]), MarshalAll(items[1..]), mid, p.Contents());
    }
    ok := ok && rest;
  }

  lemma AppendTwice(c: seq<Byte>, a: seq<Byte>, b: seq<Byte>, mid: seq<Byte>, end: seq<Byte>)
    requires mid == c + a && end == mid + b
    ensures end == c + (a + b)
  {}

  // Within what a read accepts.
  predicate Readable(item: Item) {
    match item
    case Raw(b) => |b| <= INT32_MAX
    case Str(s) => s.Some? ==> 2 * (|s.value| + 1) <= INT32_MAX
    case _ => true
  }

  /** The reader's side: one item of a known kind. */
  method ReadItem(p: Parcel, kind: Kind, ghost want: Item) returns (item: Option<Item>)
    requires p.Valid() && kind == KindOf(want)
    requires Readable(want) && StandsAt(p.Contents(), p.mDataPos, Marshal(want))
    modifies p`mDataPos
    ensures p.Valid()
    ensures item == Some(want) && p.mDataPos == old(p.mDataPos) + |Marshal(want)|
  {
    match kind {
      case KindRaw(len) => item := ReadRaw(p, len, want);
      case KindStr => item := ReadString(p, want);
      case _ => item := ReadInteger(p, kind, want);
    }
  }

  method ReadRaw(p: Parcel, len: nat, ghost want: Item) returns (item: Option<Item>)
    requires p.Valid() && KindRaw(len) == KindOf(want)
    requires len <= INT32_MAX && StandsAt(p.Contents(), p.mDataPos, Marshal(want))
    modifies p`mDataPos
    ensures p.Valid()
    ensures item == Some(want) && p.mDataPos == old(p.mDataPos) + |Marshal(want)|
  {
    ReadBack(p.Contents(), p.mDataPos, want);
    var bytes := p.ReadInplace(len);
    item := if bytes.Some? then Some(Raw(bytes.value)) else None;
  }

  method ReadString(p: Parcel, ghost want: Item) returns (item: Option<Item>)
    requires p.Valid() && want.Str? && Readable(want)
    requires StandsAt(p.Contents(), p.mDataPos, StringBytes(want.str))
    modifies p`mDataPos
    ensures p.Valid()
    ensures item == Some(want) && p.mDataPos == old(p.mDataPos) + |StringBytes(want.str)|
  {
    StringRoundTrip(p.Contents(), p.mDataPos, want.str);
    var s := p.ReadString16();
    item := Some(Str(s));
  }

  method ReadInteger(p: Parcel, kind: Kind, ghost want: Item) returns (item: Option<Item>)
    requires p.Valid() && kind == KindOf(want) && (want.I32? || want.I64?)
    requires StandsAt(p.Contents(), p.mDataPos, Marshal(want))
    modifies p`mDataPos
    ensures p.Valid()
    ensures item == Some(want) && p.mDataPos == old(p.mDataPos) + |Marshal(want)|
  {
    ReadBack(p.Contents(), p.mDataPos, want);
    var bytes := p.ReadAligned(if kind.KindI32? then 4 else 8);
    if bytes.None? {
      return None;
    }
    item := Some(if kind.KindI32? then I32(Int32Of(bytes.value)) else I64(Int64Of(bytes.value)));
  }

  lemma ReadBack(c: seq<Byte>, pos: nat, want: Item)
    requires Sized(want) && !want.Str? && StandsAt(c, pos, Marshal(want))
    ensures match want
            case I32(v) => Int32Of(c[pos..pos + 4]) == v
            case I64(v) => Int64Of(c[pos..pos + 8]) == v
            case Raw(b) => c[pos..pos + |b|] == b
  {
    match want {
      case I32(v) => Int32RoundTrip(v);
      case I64(v) => Int64RoundTrip(v);
      case Raw(b) => StandsInside(c, pos, [], b, Zeros(Pad(|b|) - |b|)); assert [] + Padded(b) == Padded(b);
    }
  }

  function Kinds(items: seq<Item>): (k: seq<Kind>)
    ensures |k| == |items|
  {
    if items == [] then [] else [KindOf(items[0])] + Kinds(items[1..])
  }

  ghost predicate AllReadable(items: seq<Item>) {
    items == [] || (Readable(items[0]) && AllReadable(items[1..]))
  }

  method ReadAll(p: Parcel, kinds: seq<Kind>, ghost items: seq<Item>) returns (r: Option<seq<Item>>)
    requires p.Valid() && AllSized(items) && AllReadable(items) && kinds == Kinds(items)
    requires StandsAt(p.Contents(), p.mDataPos, MarshalAll(items))
    modifies p`mDataPos
    ensures p.Valid() && p.mDataPos == old(p.mDataPos) + |MarshalAll(items)|
    ensures r == Some(items)
    decreases |kinds|
  {
    if kinds == [] {
      return Some([]);
    }
    NextStands(p.Contents(), p.mDataPos, items);
    assert items == [items[0]] + items[1..];
    var item := ReadItem(p, kinds[0], items[0]);
    var rest := ReadAll(p, kinds[1..], items[1..]);
    r := if item.Some? && rest.Some? then Some([item.value] + rest.value) else None;
  }

  lemma NextStands(c: seq<Byte>, pos: nat, items: seq<Item>)
    requires AllSized(items) && items != [] && StandsAt(c, pos, MarshalAll(items))
    ensures Sized(items[0]) && AllSized(items[1..])
    ensures |MarshalAll(items)| == |Marshal(items[0])| + |MarshalAll(items[1..])|
    ensures StandsAt(c, pos, Marshal(items[0]))
    ensures StandsAt(c, pos + |Marshal(items[0])|, MarshalAll(items[1..]))
  {
    MarshalAllCons(items);
    StandsSplit(c, pos, MarshalAll(items), Marshal(items[0]), MarshalAll(items[1..]));
  }

  lemma MarshalAllCons(items: seq<Item>)
    requires AllSized(items) && items != []
    ensures Sized(items[0]) && AllSized(items[1..])
    ensures MarshalAll(items) == Marshal(items[0]) + MarshalAll(items[1..])
  {
    AllSizedSplit(items);
  }

  lemma StandsSplit(c: seq<Byte>, pos: nat, whole: seq<Byte>, a: seq<Byte>, b: seq<Byte>)
    requires StandsAt(c, pos, whole) && whole == a + b
    ensures |whole| == |a| + |b| && StandsAt(c, pos, a) && StandsAt(c, pos + |a|, b)
  {
    assert a + (b + []) == whole;
    StandsInside(c, pos, a, b, []);
  }

  // What fits the parcel is within what a read accepts.
  lemma {:induction false} SmallIsReadable(items: seq<Item>)
    requires AllSized(items) && Small(|MarshalAll(items)|)
    ensures AllReadable(items)
  {
    if items != [] {
      AllSizedSplit(items);
      assert Readable(items[0]) by { assert |Marshal(items[0])| <= |MarshalAll(items)|; }
      SmallIsReadable(items[1..]);
    }
  }

  /** Write any list of items to an empty parcel, rewind, read the same kinds:
      the same items come back and the position ends at the end of the data. */
  method RoundTrip(items: seq<Item>, sizeMax: nat) returns (r: Option<seq<Item>>, pos: nat, size: nat)
    requires sizeMax >= SIZE_MAX_32
    requires AllSized(items) && Small(|MarshalAll(items)|)
    ensures r == Some(items)
    ensures pos == size == |MarshalAll(items)|
  {
    var p := new Parcel(sizeMax, []);
    ghost var ok := WriteAll(p, items);
    assert [] + MarshalAll(items) == MarshalAll(items);
    p.SetDataPosition(0);
    assert p.Contents()[0..|MarshalAll(items)|] == MarshalAll(items);
    SmallIsReadable(items);
    r := ReadAll(p, Kinds(items), items);
    pos, size := p.mDataPos, p.mDataSize;
  }
}
