/** C strings through a parcel (the string helpers of libril/ril.cpp): modified
    UTF-8 is widened, marshalled, read back and narrowed again. */
module StringMarshal {
  import opened Basics
  import opened Codec
  import opened ParcelFormat
  import opened Parcels
  import opened ParcelRoundTrip

  // A char *: NULL, or the bytes before the terminating NUL.
  type Text = Option<seq<Byte>>

  predicate CText(s: Text) {
    s.Some? ==> 0 !in s.value
  }

  function Widen(s: Text): Option<seq<Unit>> {
    if s.None? then None else Some(Decode(s.value))
  }

  function Narrow(u: Option<seq<Unit>>): Text {
    if u.None? then None else Some(Encode(u.value))
  }

  // What writing a string and reading it gives.
  function Restored(s: Text): Text {
    Narrow(Widen(s))
  }

  /** End to end a string comes back as it was exactly when it is NULL or
      canonical modified UTF-8. */
  lemma RestoredExactly(s: Text)
    ensures Restored(s) == s <==> s.None? || Canonical(s.value)
  {
    if s.Some? { EncodeDecode(s.value); }
  }

  /** Every text, malformed ones included, changes at most once; what comes back
      is a canonical C string. */
  lemma RestoredOnce(s: Text)
    ensures Restored(Restored(s)) == Restored(s)
    ensures CText(Restored(s)) && (s.Some? ==> Canonical(Restored(s).value))
  {
    if s.Some? {
      DecodeEncode(Decode(s.value));
      EncodeCanonical(Decode(s.value));
      EncodeBounds(Decode(s.value));
    }
  }

  // The string that is sent: NULL for one too long to be copied, and for an
  // empty one without memory.
  function Wide(s: Text, sizeMax: nat, mallocOk: bool): Option<seq<Unit>> {
    if s.Some? && mallocOk && Sizeable(s.value, sizeMax) then Widen(s) else None
  }

  /** writeStringToParcel.  Its behaviour is undefined exactly when strdup8to16
      writes through a null pointer, and nothing is said of the parcel then. */
  method WriteStringToParcel(p: Parcel, s: Text, mallocOk: bool) returns (undefined: bool, ghost ok: bool)
    requires p.Valid() && CText(s)
    modifies p, p.mData
    ensures p.Valid() && (p.mData == old(p.mData) || (p.mData != null && fresh(p.mData)))
    ensures undefined <==> NullIsWritten(s, p.sizeMax, mallocOk)
    ensures ok ==> !undefined && Sized(Str(Wide(s, p.sizeMax, mallocOk)))
    ensures ok ==> p.Wrote(old(p.Contents()), old(p.mDataPos), StringBytes(Wide(s, p.sizeMax, mallocOk)))
    ensures old(p.allocations) == [] ==> p.allocations == []
    ensures (
      && !undefined && old(p.allocations) == [] && old(p.mDataPos) == old(p.mDataSize)
      && Sized(Str(Wide(s, p.sizeMax, mallocOk)))
      && Small(old(p.mDataSize) + |StringBytes(Wide(s, p.sizeMax, mallocOk))|)) ==> ok
  {
    var s16 := Strdup8to16(s, p.sizeMax, mallocOk);
    if s16.WrittenThroughNull? {
      return true, false;
    }
    var str := if s16.Copied? then Some(s16.units) else None;
    if Sized(Str(str)) && p.mDataPos == p.mDataSize && Small(p.mDataSize + |StringBytes(str)|) {
      SmallAdmitsString(p, str);
    }
    undefined := false;
    var err;
    err, ok := p.WriteString16(str);
  }

  // No string a parcel holds is too long to be narrowed.
  lemma StringBound(c: seq<Byte>, pos: nat)
    ensures var s := StringAt(c, pos).0; s.Some? ==> |Encode(s.value)| < SIZE_MAX_32 - 1
  {
    var s := StringAt(c, pos).0;
    if s.Some? { EncodeBounds(s.value); }
  }

  /** strdupReadString: only a missing string or a failed allocation gives NULL. */
  method StrdupReadString(p: Parcel, mallocOk: bool) returns (s: Text)
    requires p.Valid()
    modifies p`mDataPos
    ensures p.Valid()
    ensures var (s16, next) := StringAt(p.Contents(), old(p.mDataPos));
            s == (if mallocOk then Narrow(s16) else None) && p.mDataPos == next
  {
    StringBound(p.Contents(), p.mDataPos);
    var s16 := p.ReadString16();
    s := Strndup16to8(s16, p.sizeMax, mallocOk);
  }

  /** Write any string to an empty parcel, rewind, read it. */
  method StringRoundTrip(s: Text, sizeMax: nat) returns (r: Text)
    requires sizeMax >= SIZE_MAX_32 && CText(s)
    requires s.Some? ==> Sizeable(s.value, sizeMax) && |Decode(s.value)| <= INT32_MAX && Small(|StringBytes(Widen(s))|)
    ensures r == Restored(s)
    ensures s.None? || Canonical(s.value) ==> r == s
  {
    var p := new Parcel(sizeMax, []);
    var undefined;
    ghost var ok;
    undefined, ok := WriteStringToParcel(p, s, true);
    p.SetDataPosition(0);
    ghost var bytes := StringBytes(Widen(s));
    assert p.Contents()[0..|bytes|] == bytes;
    ParcelFormat.StringRoundTrip(p.Contents(), 0, Widen(s));
    RestoredExactly(s);
    r := StrdupReadString(p, true);
  }

  // ---------------------------------------------------------------- lists of strings

  function Items(strings: seq<Text>): (items: seq<Item>)
    ensures |items| == |strings|
    ensures forall i :: 0 <= i < |items| ==> items[i] == Str(Widen(strings[i]))
  {
    seq(|strings|, i requires 0 <= i < |strings| => Str(Widen(strings[i])))
  }

  ghost predicate AllCText(strings: seq<Text>) {
    forall i :: 0 <= i < |strings| ==> CText(strings[i])
  }

  // Each string can be widened.
  ghost predicate AllConvertible(strings: seq<Text>, sizeMax: nat) {
    forall i :: 0 <= i < |strings| ==> Wide(strings[i], sizeMax, true) == Widen(strings[i])
  }

  lemma SizedCons(item: Item, rest: seq<Item>)
    requires Sized(item) && AllSized(rest)
    ensures AllSized([item] + rest)
    ensures MarshalAll([item] + rest) == Marshal(item) + MarshalAll(rest)
  {
    var all := [item] + rest;
    forall i | 0 <= i < |all| ensures Sized(all[i]) {
      if i > 0 { assert Sized(rest[i - 1]); }
    }
    assert all[1..] == rest;
  }

  lemma {:induction false} MarshalAppend(items: seq<Item>, item: Item)
    requires AllSized(items) && Sized(item)
    ensures AllSized(items + [item])
    ensures MarshalAll(items + [item]) == MarshalAll(items) + Marshal(item)
  {
    if items == [] {
      assert items + [item] == [item];
      assert MarshalAll([item]) == Marshal(item) + MarshalAll([]);
    } else {
      AllSizedSplit(items);
      var rest := items[1..];
      MarshalAppend(rest, item);
      SizedCons(items[0], rest + [item]);
      assert items + [item] == [items[0]] + (rest + [item]);
      Associate(Marshal(items[0]), MarshalAll(rest), Marshal(item));
    }
  }

  lemma MarshalPrefix(items: seq<Item>, i: nat)
    requires AllSized(items) && i < |items|
    ensures AllSized(items[..i]) && AllSized(items[..i + 1]) && Sized(items[i])
    ensures MarshalAll(items[..i + 1]) == MarshalAll(items[..i]) + Marshal(items[i])
  {
    assert Sized(items[i]);
    forall k | 0 <= k < i ensures Sized(items[..i][k]) { assert Sized(items[k]); }
    MarshalAppend(items[..i], items[i]);
    assert items[..i] + [items[i]] == items[..i + 1];
  }

  lemma MarshalShorter(items: seq<Item>, i: nat)
    requires AllSized(items) && i <= |items| && AllSized(items[..i])
    ensures |MarshalAll(items[..i])| <= |MarshalAll(items)|
    decreases |items| - i
  {
    if i < |items| {
      MarshalPrefix(items, i);
      MarshalShorter(items, i + 1);
    } else {
      assert items[..i] == items;
    }
  }

  lemma SpliceAtEnd(c: seq<Byte>, b: seq<Byte>)
    ensures Splice(c, |c|, b) == c + b
  {}

  // The first i of the items have been appended to c, and nothing has failed.
  ghost predicate Written(p: Parcel, c: seq<Byte>, items: seq<Item>, i: nat)
    requires p.Valid() && i <= |items| && AllSized(items[..i])
    reads p, p.mData
  {
    p.allocations == [] && p.mDataPos == p.mDataSize && p.Contents() == c + MarshalAll(items[..i])
  }

  // What a list must be like for none of its writes to fail.
  ghost predicate Writable(strings: seq<Text>, sizeMax: nat, size: nat) {
    AllConvertible(strings, sizeMax) && AllSized(Items(strings)) && Small(size + |MarshalAll(Items(strings))|)
  }

  lemma AppendMore(c: seq<Byte>, items: seq<Item>, i: nat, before: seq<Byte>)
    requires AllSized(items) && i < |items| && AllSized(items[..i])
    requires before == c + MarshalAll(items[..i])
    ensures AllSized(items[..i + 1]) && Sized(items[i])
    ensures Splice(before, |before|, Marshal(items[i])) == c + MarshalAll(items[..i + 1])
    ensures |before| + |Marshal(items[i])| <= |c| + |MarshalAll(items)|
  {
    MarshalPrefix(items, i);
    MarshalShorter(items, i + 1);
    SpliceAtEnd(before, Marshal(items[i]));
    AppendTwice(c, MarshalAll(items[..i]), Marshal(items[i]), before, before + Marshal(items[i]));
  }

  // The first i of the strings have been written behind c.
  ghost predicate SoFar(p: Parcel, c: seq<Byte>, strings: seq<Text>, i: nat)
    requires p.Valid() && i <= |strings|
    reads p, p.mData
  {
    forall items :: items == Items(strings) ==> AllSized(items[..i]) && Written(p, c, items, i)
  }

  lemma NoneSoFar(p: Parcel, strings: seq<Text>)
    requires p.Valid() && p.allocations == [] && p.mDataPos == p.mDataSize
    ensures SoFar(p, p.Contents(), strings, 0)
  {
    var c, none := p.Contents(), Items(strings)[..0];
    assert none == [] && c + MarshalAll(none) == c;
  }

  lemma AllSoFar(p: Parcel, c: seq<Byte>, strings: seq<Text>)
    requires p.Valid() && SoFar(p, c, strings, |strings|)
    ensures AllSized(Items(strings)) && p.Contents() == c + MarshalAll(Items(strings))
    ensures p.mDataPos == p.mDataSize
  {
    assert Items(strings)[..|strings|] == Items(strings);
  }

  // One turn of the loop of responseStrings.
  method WriteNext(p: Parcel, strings: seq<Text>, i: nat, ghost c: seq<Byte>, ghost all: bool)
    requires p.Valid() && i < |strings| && CText(strings[i])
    requires all ==> Writable(strings, p.sizeMax, |c|) && SoFar(p, c, strings, i)
    modifies p, p.mData
    ensures p.Valid() && (p.mData == old(p.mData) || (p.mData != null && fresh(p.mData)))
    ensures all ==> SoFar(p, c, strings, i + 1)
  {
    ghost var before := p.Contents();
    if all { NextFits(p, c, strings, i); }
    var undefined;
    ghost var written;
    undefined, written := WriteStringToParcel(p, strings[i], true);
    if all { OneWritten(p, c, strings, i, before); }
  }

  // Nothing keeps the next string from being written.
  lemma NextFits(p: Parcel, c: seq<Byte>, strings: seq<Text>, i: nat)
    requires p.Valid() && i < |strings| && Writable(strings, p.sizeMax, |c|) && SoFar(p, c, strings, i)
    ensures p.allocations == [] && p.mDataPos == p.mDataSize
    ensures Wide(strings[i], p.sizeMax, true) == Widen(strings[i]) && Sized(Str(Widen(strings[i])))
    ensures Small(p.mDataSize + |StringBytes(Widen(strings[i]))|) && !NullIsWritten(strings[i], p.sizeMax, true)
    ensures var items := Items(strings); AllSized(items) && AllSized(items[..i]) && p.Contents() == c + MarshalAll(items[..i])
  {
    AppendMore(c, Items(strings), i, p.Contents());
    assert Wide(strings[i], p.sizeMax, true) == Widen(strings[i]);
  }

  lemma OneWritten(p: Parcel, c: seq<Byte>, strings: seq<Text>, i: nat, before: seq<Byte>)
    requires p.Valid() && i < |strings| && AllSized(Items(strings)) && AllSized(Items(strings)[..i])
    requires before == c + MarshalAll(Items(strings)[..i])
    requires p.allocations == [] && p.Wrote(before, |before|, Marshal(Items(strings)[i]))
    ensures SoFar(p, c, strings, i + 1)
  {
    AppendMore(c, Items(strings), i, before);
  }

  // The loop of responseStrings.
  method WriteStrings(p: Parcel, strings: seq<Text>, numStrings: Int32) returns (ghost ok: bool)
    requires p.Valid() && AllCText(strings) && numStrings <= |strings|
    modifies p, p.mData
    ensures p.Valid() && (p.mData == old(p.mData) || (p.mData != null && fresh(p.mData)))
    ensures (
      && numStrings == |strings| && Writable(strings, p.sizeMax, old(p.mDataSize))
      && old(p.allocations) == [] && old(p.mDataPos) == old(p.mDataSize)) ==> ok
    ensures ok ==> AllSized(Items(strings)) && p.Contents() == old(p.Contents()) + MarshalAll(Items(strings))
    ensures ok ==> p.mDataPos == p.mDataSize
  {
    ghost var c := p.Contents();
    ok := (
      && numStrings == |strings| && Writable(strings, p.sizeMax, p.mDataSize)
      && p.allocations == [] && p.mDataPos == p.mDataSize);
    if ok { NoneSoFar(p, strings); }
    WriteEach(p, strings, numStrings, c, ok);
    if ok { AllSoFar(p, c, strings); }
  }

  method WriteEach(p: Parcel, strings: seq<Text>, numStrings: Int32, ghost c: seq<Byte>, ghost all: bool)
    requires p.Valid() && AllCText(strings) && numStrings <= |strings|
    requires all ==> numStrings == |strings| && Writable(strings, p.sizeMax, |c|) && SoFar(p, c, strings, 0)
    modifies p, p.mData
    ensures p.Valid() && (p.mData == old(p.mData) || (p.mData != null && fresh(p.mData)))
    ensures all ==> SoFar(p, c, strings, |strings|)
  {
    var i: nat := 0;
    while i < numStrings
      invariant p.Valid() && (p.mData == old(p.mData) || (p.mData != null && fresh(p.mData)))
      invariant i <= |strings| && (numStrings >= 0 ==> i <= numStrings)
      invariant all ==> SoFar(p, c, strings, i)
      decreases numStrings - i
    {
      WriteNext(p, strings, i, c, all);
      i := i + 1;
    }
  }

  /** A list that goes into a parcel of this size as it is. */
  ghost predicate Sendable(strings: seq<Text>, sizeMax: nat, size: nat) {
    |strings| <= INT32_MAX && Writable(strings, sizeMax, size + 4)
  }

  function ListBytes(strings: seq<Text>): seq<Byte>
    requires |strings| <= INT32_MAX && AllSized(Items(strings))
  {
    Int32Bytes(|strings|) + MarshalAll(Items(strings))
  }

  /** A list begins with the number of its strings. */
  lemma ListHead(strings: seq<Text>)
    requires |strings| <= INT32_MAX && AllSized(Items(strings))
    ensures |ListBytes(strings)| >= 4 && Int32Of(ListBytes(strings)[..4]) == |strings|
    ensures ListBytes(strings)[4..] == MarshalAll(Items(strings))
  {
    assert ListBytes(strings)[..4] == Int32Bytes(|strings|);
    Int32RoundTrip(|strings|);
  }

  ghost predicate Sent(p: Parcel, c: seq<Byte>, strings: seq<Text>)
    requires p.Valid()
    reads p, p.mData
  {
    && |strings| <= INT32_MAX && AllSized(Items(strings))
    && p.Contents() == c + ListBytes(strings) && p.mDataPos == p.mDataSize
  }

  function Listed(response: Option<seq<Text>>): seq<Text> {
    if response.Some? then response.value else []
  }

  /** responseStrings: refused exactly on a NULL with a length, or on a length
      that is no multiple of the pointer size; a NULL is sent as an empty list.
      `response` holds the strings that its length covers. */
  method ResponseStrings(p: Parcel, response: Option<seq<Text>>, responselen: nat, ptr: nat) returns (invalid: bool, ghost ok: bool)
    requires p.Valid() && p.mDataPos == p.mDataSize
    requires ptr == 4 || ptr == 8
    requires response.Some? ==> |response.value| == responselen / ptr && AllCText(response.value)
    modifies p, p.mData
    ensures p.Valid()
    ensures invalid <==> (response.None? && responselen != 0) || responselen % ptr != 0
    ensures invalid ==> p.Contents() == old(p.Contents()) && p.mDataPos == old(p.mDataPos) && !ok
    ensures ok ==> Sent(p, old(p.Contents()), Listed(response))
    ensures !invalid && old(p.allocations) == [] && Sendable(Listed(response), p.sizeMax, old(p.mDataSize)) ==> ok
  {
    if response.None? && responselen != 0 {
      return true, false;
    }
    if responselen % ptr != 0 {
      return true, false;
    }
    invalid := false;
    ok := SendStrings(p, Listed(response));
  }

  // the count and the strings
  method SendStrings(p: Parcel, strings: seq<Text>) returns (ghost ok: bool)
    requires p.Valid() && p.mDataPos == p.mDataSize && AllCText(strings)
    modifies p, p.mData
    ensures p.Valid()
    ensures ok ==> Sent(p, old(p.Contents()), strings)
    ensures old(p.allocations) == [] && Sendable(strings, p.sizeMax, old(p.mDataSize)) ==> ok
  {
    ghost var c := p.Contents();
    ghost var expected := p.allocations == [] && Sendable(strings, p.sizeMax, p.mDataSize);
    var numStrings := LengthWord(|strings|);
    if expected { SmallAdmits(p, 4); }
    var err := p.WriteInt32(numStrings);
    if expected { SpliceAtEnd(c, Int32Bytes(|strings|)); }
    ghost var mid := p.Contents();
    ghost var rest := WriteStrings(p, strings, numStrings);
    ok := expected;
    if ok {
      AppendTwice(c, Int32Bytes(|strings|), MarshalAll(Items(strings)), mid, p.Contents());
    }
  }

  /** What dispatchStrings makes of its parcel: no command at all, no memory for
      the array, or a request handed on. */
  datatype Dispatched = Invalid | OutOfMemory | Handed(strings: Option<seq<Text>>, datalen: nat)

  // String k is what stands at at[k] in c, and at[k + 1] is where reading it ends.
  ghost predicate ReadAs(c: seq<Byte>, at: seq<nat>, strings: seq<Text>, k: nat)
    requires k < |strings| && k + 1 < |at|
  {
    strings[k] == Narrow(StringAt(c, at[k]).0) && at[k + 1] == StringAt(c, at[k]).1
  }

  /** `strings` are those found one behind the other in c, at these positions. */
  ghost predicate Consecutive(c: seq<Byte>, at: seq<nat>, strings: seq<Text>) {
    |at| == |strings| + 1 && forall k :: 0 <= k < |strings| ==> ReadAs(c, at, strings, k)
  }

  lemma OneMore(c: seq<Byte>, at: seq<nat>, strings: seq<Text>, s: Text, next: nat)
    requires Consecutive(c, at, strings)
    requires StringAt(c, at[|strings|]).1 == next && s == Narrow(StringAt(c, at[|strings|]).0)
    ensures Consecutive(c, at + [next], strings + [s])
  {
    forall k | 0 <= k < |strings| + 1 ensures ReadAs(c, at + [next], strings + [s], k) {
      if k < |strings| { assert ReadAs(c, at, strings, k); }
    }
  }

  method ReadStrings(p: Parcel, n: nat) returns (strings: seq<Text>, ghost at: seq<nat>)
    requires p.Valid()
    modifies p`mDataPos
    ensures p.Valid() && |strings| == n && Consecutive(p.Contents(), at, strings)
    ensures at[0] == old(p.mDataPos) && at[n] == p.mDataPos
  {
    strings := [];
    at := [p.mDataPos];
    for i := 0 to n
      invariant p.Valid() && |strings| == i && Consecutive(p.Contents(), at, strings)
      invariant at[0] == old(p.mDataPos) && at[i] == p.mDataPos
    {
      var s := StrdupReadString(p, true);
      OneMore(p.Contents(), at, strings, s, p.mDataPos);
      strings := strings + [s];
      at := at + [p.mDataPos];
    }
  }

  // The array of dispatchStrings, its count read.
  method ReadArray(p: Parcel, countStrings: int, ptr: nat, callocOk: bool) returns (r: Dispatched, ghost at: seq<nat>)
    requires p.Valid()
    modifies p`mDataPos
    ensures p.Valid()
    ensures countStrings < 0 ==> r == Handed(None, 0)
    ensures countStrings >= 0 && !callocOk ==> r == OutOfMemory
    ensures countStrings >= 0 && callocOk ==> r.Handed? && r.strings.Some? && r.datalen == ptr * countStrings
    ensures r.Handed? && r.strings.Some? ==> |r.strings.value| == countStrings && Consecutive(p.Contents(), at, r.strings.value)
    ensures |at| > 0 && at[0] == old(p.mDataPos) && at[|at| - 1] == p.mDataPos
  {
    at := [p.mDataPos];
    if countStrings < 0 {
      return Handed(None, 0), at;
    }
    if !callocOk {
      return OutOfMemory, at;
    }
    if countStrings == 0 {
      return Handed(Some([]), 0), at;
    }
    var strings;
    strings, at := ReadStrings(p, countStrings);
    r := Handed(Some(strings), ptr * countStrings);
  }

  // The count dispatchStrings reads.
  function CountAt(c: seq<Byte>, pos: nat): Option<Int32> {
    if pos + 4 > |c| then None else Some(Int32Of(c[pos..pos + 4]))
  }

  /** dispatchStrings: no command without a count, no array for a negative one,
      and else the next `count` strings of the parcel, each read where the one
      before it ended. */
  method DispatchStrings(p: Parcel, ptr: nat, callocOk: bool) returns (r: Dispatched, ghost at: seq<nat>)
    requires p.Valid()
    modifies p`mDataPos
    ensures p.Valid()
    ensures var count := CountAt(p.Contents(), old(p.mDataPos));
            && (count.None? ==> r == Invalid && p.mDataPos == old(p.mDataPos))
            && (count.Some? && count.value < 0 ==> r == Handed(None, 0))
            && (count.Some? && count.value >= 0 && !callocOk ==> r == OutOfMemory)
            && (count.Some? && count.value >= 0 && callocOk ==>
                  r.Handed? && r.strings.Some? && |r.strings.value| == count.value && r.datalen == ptr * count.value)
    ensures r.Handed? && r.strings.Some? ==> Consecutive(p.Contents(), at, r.strings.value)
    ensures r != Invalid ==> |at| > 0 && at[0] == old(p.mDataPos) + 4 && at[|at| - 1] == p.mDataPos
  {
    var bytes := p.ReadAligned(4);
    if bytes.None? {
      return Invalid, [];
    }
    r, at := ReadArray(p, Int32Of(bytes.value), ptr, callocOk);
  }

  function RestoredAll(strings: seq<Text>): (r: seq<Text>)
    ensures |r| == |strings|
    ensures forall i :: 0 <= i < |r| ==> r[i] == Restored(strings[i])
  {
    if strings == [] then [] else [Restored(strings[0])] + RestoredAll(strings[1..])
  }

  function Join(blocks: seq<seq<Byte>>): seq<Byte> {
    if blocks == [] then [] else blocks[0] + Join(blocks[1..])
  }

  // Where each of the blocks starts, and where the last one ends.
  function Offsets(pos: nat, blocks: seq<seq<Byte>>): (at: seq<nat>)
    ensures |at| == |blocks| + 1 && at[0] == pos
    decreases |blocks|
  {
    if blocks == [] then [pos] else [pos] + Offsets(pos + |blocks[0]|, blocks[1..])
  }

  lemma {:induction false} OffsetsStand(c: seq<Byte>, pos: nat, blocks: seq<seq<Byte>>, i: nat)
    requires StandsAt(c, pos, Join(blocks)) && i < |blocks|
    ensures StandsAt(c, Offsets(pos, blocks)[i], blocks[i])
    ensures Offsets(pos, blocks)[i + 1] == Offsets(pos, blocks)[i] + |blocks[i]|
    decreases i
  {
    StandsSplit(c, pos, Join(blocks), blocks[0], Join(blocks[1..]));
    if i > 0 { OffsetsStand(c, pos + |blocks[0]|, blocks[1..], i - 1); }
  }

  lemma {:induction false} OffsetsEnd(pos: nat, blocks: seq<seq<Byte>>)
    ensures Offsets(pos, blocks)[|blocks|] == pos + |Join(blocks)|
    decreases |blocks|
  {
    if blocks != [] {
      var next := pos + |blocks[0]|;
      OffsetsEnd(next, blocks[1..]);
      assert Offsets(pos, blocks)[|blocks|] == Offsets(next, blocks[1..])[|blocks| - 1];
    }
  }

  function Blocks(items: seq<Item>): (blocks: seq<seq<Byte>>)
    requires AllSized(items)
    ensures |blocks| == |items|
  {
    if items == [] then []
    else
      AllSizedSplit(items);
      [Marshal(items[0])] + Blocks(items[1..])
  }

  lemma {:induction false} BlockAt(items: seq<Item>, i: nat)
    requires AllSized(items) && i < |items|
    ensures Sized(items[i]) && Blocks(items)[i] == Marshal(items[i])
  {
    AllSizedSplit(items);
    if i > 0 { BlockAt(items[1..], i - 1); }
  }

  lemma {:induction false} MarshalIsJoin(items: seq<Item>)
    requires AllSized(items)
    ensures MarshalAll(items) == Join(Blocks(items))
  {
    if items != [] {
      AllSizedSplit(items);
      MarshalIsJoin(items[1..]);
    }
  }

  // The strings of a list, marshalled behind its count.
  ghost predicate Stands(c: seq<Byte>, strings: seq<Text>, items: seq<Item>) {
    && items == Items(strings) && AllSized(items) && Small(|MarshalAll(items)|)
    && StandsAt(c, 4, MarshalAll(items))
  }

  // Where one of them is.
  lemma StringStands(c: seq<Byte>, strings: seq<Text>, items: seq<Item>, i: nat)
    requires i < |strings| && Stands(c, strings, items)
    ensures var at := Offsets(4, Blocks(items));
            && Readable(items[i]) && Sized(items[i]) && StandsAt(c, at[i], Marshal(items[i]))
            && at[i + 1] == at[i] + |Marshal(items[i])|
  {
    SmallIsReadable(items);
    OneReadable(items, i);
    MarshalIsJoin(items);
    BlockAt(items, i);
    OffsetsStand(c, 4, Blocks(items), i);
  }

  // One marshalled string is read back.
  lemma StringBack(c: seq<Byte>, strings: seq<Text>, items: seq<Item>, i: nat)
    requires i < |strings| && Stands(c, strings, items)
    ensures var at := Offsets(4, Blocks(items));
            StringAt(c, at[i]) == (Widen(strings[i]), at[i + 1])
  {
    var at := Offsets(4, Blocks(items));
    StringStands(c, strings, items, i);
    OneBack(c, at[i], Widen(strings[i]), items[i], at[i + 1]);
  }

  lemma OneBack(c: seq<Byte>, pos: nat, s: Option<seq<Unit>>, item: Item, next: nat)
    requires item == Str(s) && Sized(item) && Readable(item)
    requires StandsAt(c, pos, Marshal(item)) && next == pos + |Marshal(item)|
    ensures StringAt(c, pos) == (s, next)
  {
    ParcelFormat.StringRoundTrip(c, pos, s);
  }

  lemma {:induction false} OneReadable(items: seq<Item>, i: nat)
    requires AllReadable(items) && i < |items|
    ensures Readable(items[i])
  {
    if i > 0 { OneReadable(items[1..], i - 1); }
  }

  // Reading from the first on, the positions are those of the writer.
  lemma {:induction false} SamePositions(c: seq<Byte>, strings: seq<Text>, items: seq<Item>, at: seq<nat>, got: seq<Text>, i: nat)
    requires Stands(c, strings, items) && Consecutive(c, at, got) && |got| == |strings| && at[0] == 4
    requires i <= |strings|
    ensures at[i] == Offsets(4, Blocks(items))[i]
    ensures i < |strings| ==> got[i] == Restored(strings[i])
  {
    if i > 0 {
      SamePositions(c, strings, items, at, got, i - 1);
      assert ReadAs(c, at, got, i - 1);
      StringBack(c, strings, items, i - 1);
    }
    if i < |strings| {
      assert ReadAs(c, at, got, i);
      StringBack(c, strings, items, i);
    }
  }

  // The count in front of the strings.
  lemma CountBack(c: seq<Byte>, strings: seq<Text>)
    requires |strings| <= INT32_MAX && AllSized(Items(strings)) && c == ListBytes(strings)
    ensures CountAt(c, 0) == Some(|strings|)
    ensures StandsAt(c, 4, MarshalAll(Items(strings))) && |c| == 4 + |MarshalAll(Items(strings))|
  {
    Int32RoundTrip(|strings|);
    assert c[0..4] == Int32Bytes(|strings|);
    assert c[4..] == MarshalAll(Items(strings));
  }

  // The strings, as dispatchStrings meets them.
  lemma ListBack(c: seq<Byte>, strings: seq<Text>, sizeMax: nat, at: seq<nat>, got: seq<Text>)
    requires Sendable(strings, sizeMax, 0) && c == ListBytes(strings)
    requires Consecutive(c, at, got) && |got| == |strings| && at[0] == 4
    ensures got == RestoredAll(strings) && at[|strings|] == |c|
  {
    var items := Items(strings);
    CountBack(c, strings);
    forall i | 0 <= i < |strings| ensures got[i] == Restored(strings[i]) {
      SamePositions(c, strings, items, at, got, i);
    }
    SamePositions(c, strings, items, at, got, |strings|);
    MarshalIsJoin(items);
    OffsetsEnd(4, Blocks(items));
  }

  predicate AllCanonical(strings: seq<Text>) {
    forall i :: 0 <= i < |strings| ==> strings[i].None? || Canonical(strings[i].value)
  }

  /** A list comes back as it was exactly when it holds only NULLs and canonical
      strings. */
  lemma RestoredCanonical(strings: seq<Text>)
    ensures AllCanonical(strings) <==> RestoredAll(strings) == strings
  {
    forall i | 0 <= i < |strings| ensures RestoredAll(strings)[i] == strings[i] <==> strings[i].None? || Canonical(strings[i].value) {
      RestoredExactly(strings[i]);
    }
  }

  lemma CountTimes(n: nat, ptr: nat)
    requires ptr == 4 || ptr == 8
    ensures ptr * n / ptr == n && ptr * n % ptr == 0
  {}

  // A list in a parcel of its own, rewound.
  method SendFresh(response: Option<seq<Text>>, ptr: nat, sizeMax: nat) returns (p: Parcel)
    requires sizeMax >= SIZE_MAX_32 && (ptr == 4 || ptr == 8)
    requires AllCText(Listed(response)) && Sendable(Listed(response), sizeMax, 0)
    ensures p.Valid() && fresh(p) && p.mDataPos == 0 && p.Contents() == ListBytes(Listed(response))
  {
    p := new Parcel(sizeMax, []);
    ghost var strings := Listed(response);
    var responselen: nat := if response.Some? then ptr * |response.value| else 0;
    CountTimes(|strings|, ptr);
    var invalid;
    ghost var ok;
    invalid, ok := ResponseStrings(p, response, responselen, ptr);
    assert [] + ListBytes(strings) == ListBytes(strings);
    p.SetDataPosition(0);
  }

  // The list that such a parcel holds.
  method ReceiveFresh(p: Parcel, ptr: nat, ghost strings: seq<Text>, ghost sizeMax: nat) returns (r: Dispatched)
    requires p.Valid() && p.mDataPos == 0 && Sendable(strings, sizeMax, 0) && p.Contents() == ListBytes(strings)
    modifies p`mDataPos
    ensures p.Valid() && p.mDataPos == p.mDataSize
    ensures r == Handed(Some(RestoredAll(strings)), ptr * |strings|)
  {
    CountBack(p.Contents(), strings);
    ghost var at;
    r, at := DispatchStrings(p, ptr, true);
    ListBack(p.Contents(), strings, sizeMax, at, r.strings.value);
  }

  /** dispatchStrings inverts responseStrings on every list that is not NULL, up
      to making each string canonical; a NULL response comes back as an empty
      list. */
  method ListRoundTrip(response: Option<seq<Text>>, ptr: nat, sizeMax: nat) returns (r: Dispatched, pos: nat, size: nat)
    requires sizeMax >= SIZE_MAX_32 && (ptr == 4 || ptr == 8)
    requires AllCText(Listed(response)) && Sendable(Listed(response), sizeMax, 0)
    ensures r == Handed(Some(RestoredAll(Listed(response))), ptr * |Listed(response)|)
    ensures response.Some? && AllCanonical(response.value) ==> r.strings == response
    ensures pos == size
  {
    var p := SendFresh(response, ptr, sizeMax);
    r := ReceiveFresh(p, ptr, Listed(response), sizeMax);
    RestoredCanonical(Listed(response));
    pos, size := p.mDataPos, p.mDataSize;
  }
}
