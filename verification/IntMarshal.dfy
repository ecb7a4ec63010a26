/** Lists of integers in parcels (libril/ril.cpp). */
module IntMarshal {
  import opened Basics
  import opened ParcelFormat
  import opened Parcels
  import opened ParcelRoundTrip
  import StringMarshal

  // sizeof(int)
  const INT_SIZE: nat := 4

  function Words(ints: seq<Int32>): (items: seq<Item>)
    ensures |items| == |ints| && forall i :: 0 <= i < |items| ==> items[i] == I32(ints[i])
  {
    seq(|ints|, i requires 0 <= i < |ints| => I32(ints[i]))
  }

  /** What reaches the client of a list of integers: the number of them is taken
      from the size of a pointer. */
  function Sent(ints: seq<Int32>, ptr: nat): seq<Int32>
    requires ptr == 4 || ptr == 8
  {
    ints[..INT_SIZE * |ints| / ptr]
  }

  /** All of them exactly where a pointer is as large as an int, or if there are
      none. */
  lemma SentWhole(ints: seq<Int32>, ptr: nat)
    requires ptr == 4 || ptr == 8
    ensures |Sent(ints, ptr)| == if ptr == 4 then |ints| else |ints| / 2
    ensures Sent(ints, ptr) == ints <==> ptr == INT_SIZE || ints == []
  {
    assert |Sent(ints, ptr)| == INT_SIZE * |ints| / ptr;
  }

  // One integer, behind pointers of eight bytes, does not arrive.
  lemma OneIntLost(v: Int32)
    ensures Sent([v], 4) == [v] && Sent([v], 8) == []
  {}

  // The count and the integers.
  function ListItems(ints: seq<Int32>): (items: seq<Item>)
    requires |ints| <= INT32_MAX
    ensures AllSized(items)
  {
    [I32(|ints|)] + Words(ints)
  }

  lemma ListSplit(ints: seq<Int32>)
    requires |ints| <= INT32_MAX
    ensures MarshalAll(ListItems(ints)) == Int32Bytes(|ints|) + MarshalAll(Words(ints))
  {
    AllSizedSplit(ListItems(ints));
    assert ListItems(ints)[1..] == Words(ints);
  }

  lemma {:induction false} WordsSize(ints: seq<Int32>)
    ensures |MarshalAll(Words(ints))| == 4 * |ints|
  {
    if ints != [] {
      AllSizedSplit(Words(ints));
      assert Words(ints)[1..] == Words(ints[1..]);
      WordsSize(ints[1..]);
    }
  }

  lemma WordsMore(c: seq<Byte>, ints: seq<Int32>, i: nat, before: seq<Byte>)
    requires i < |ints| && before == c + MarshalAll(Words(ints[..i]))
    ensures Splice(before, |before|, Int32Bytes(ints[i])) == c + MarshalAll(Words(ints[..i + 1]))
  {
    StringMarshal.MarshalPrefix(Words(ints), i);
    assert Words(ints)[..i] == Words(ints[..i]) && Words(ints)[..i + 1] == Words(ints[..i + 1]);
    StringMarshal.SpliceAtEnd(before, Int32Bytes(ints[i]));
    AppendTwice(c, MarshalAll(Words(ints[..i])), Int32Bytes(ints[i]), before, before + Int32Bytes(ints[i]));
  }

  // Room for n more integers.
  predicate Roomy(p: Parcel, n: nat)
    requires p.Valid()
    reads p, p.mData
  {
    p.allocations == [] && p.mDataPos == p.mDataSize && Small(p.mDataSize + 4 * n)
  }

  method WriteWord(p: Parcel, v: Int32, ghost n: nat, ghost all: bool)
    requires p.Valid() && (all ==> n > 0 && Roomy(p, n))
    modifies p, p.mData
    ensures p.Valid() && (p.mData == old(p.mData) || (p.mData != null && fresh(p.mData)))
    ensures all ==> Roomy(p, n - 1) && p.Contents() == Splice(old(p.Contents()), old(|p.Contents()|), Int32Bytes(v))
  {
    if all { SmallAdmits(p, 4); }
    var err := p.WriteInt32(v);
  }

  // The loop of responseInts.
  method WriteWords(p: Parcel, ints: seq<Int32>, ghost all: bool)
    requires p.Valid() && (all ==> Roomy(p, |ints|))
    modifies p, p.mData
    ensures p.Valid()
    ensures all ==> p.Contents() == old(p.Contents()) + MarshalAll(Words(ints)) && p.mDataPos == p.mDataSize
  {
    ghost var c := p.Contents();
    var i := 0;
    while i < |ints|
      invariant 0 <= i <= |ints| && p.Valid() && (p.mData == old(p.mData) || (p.mData != null && fresh(p.mData)))
      invariant all ==> Roomy(p, |ints| - i) && p.Contents() == c + MarshalAll(Words(ints[..i]))
    {
      if all { WordsMore(c, ints, i, p.Contents()); }
      WriteWord(p, ints[i], |ints| - i, all);
      i := i + 1;
    }
    assert ints[..|ints|] == ints;
  }

  // the count and the integers that it covers
  method SendInts(p: Parcel, ints: seq<Int32>, n: nat)
    requires p.Valid() && n <= |ints|
    modifies p, p.mData
    ensures p.Valid()
    ensures n <= INT32_MAX && old(Roomy(p, n + 1)) ==>
              p.Contents() == old(p.Contents()) + MarshalAll(ListItems(ints[..n])) && p.mDataPos == p.mDataSize
  {
    var numInts := LengthWord(n);
    ghost var c, all := p.Contents(), n <= INT32_MAX && Roomy(p, n + 1);
    WriteWord(p, numInts, n + 1, all);
    ghost var mid := p.Contents();
    WriteWords(p, if numInts > 0 then ints[..numInts] else [], all);
    if all { ListWritten(c, ints[..n], mid, p.Contents()); }
  }

  lemma ListWritten(c: seq<Byte>, ints: seq<Int32>, mid: seq<Byte>, end: seq<Byte>)
    requires |ints| <= INT32_MAX && mid == Splice(c, |c|, Int32Bytes(|ints|)) && end == mid + MarshalAll(Words(ints))
    ensures end == c + MarshalAll(ListItems(ints))
  {
    StringMarshal.SpliceAtEnd(c, Int32Bytes(|ints|));
    ListSplit(ints);
    AppendTwice(c, Int32Bytes(|ints|), MarshalAll(Words(ints)), mid, end);
  }

  /** responseInts: refused exactly on a NULL with a length, or on a length that is
      no multiple of an int; otherwise, with memory, the list that Sent makes of
      it is written. */
  method ResponseInts(p: Parcel, response: Option<seq<Int32>>, responselen: nat, ptr: nat) returns (invalid: bool)
    requires p.Valid() && (ptr == 4 || ptr == 8)
    requires response.Some? ==> |response.value| == responselen / INT_SIZE
    modifies p, p.mData
    ensures p.Valid()
    ensures invalid <==> (response.None? && responselen != 0) || responselen % INT_SIZE != 0
    ensures invalid ==> p.Contents() == old(p.Contents()) && p.mDataPos == old(p.mDataPos)
    ensures var ints := if response.Some? then response.value else [];
            !invalid && responselen / ptr <= INT32_MAX && old(Roomy(p, responselen / ptr + 1)) ==>
              && p.Contents() == old(p.Contents()) + MarshalAll(ListItems(Sent(ints, ptr)))
              && p.mDataPos == p.mDataSize
  {
    if response.None? && responselen != 0 {
      return true;
    }
    if responselen % INT_SIZE != 0 {
      return true;
    }
    invalid := false;
    SendInts(p, if response.Some? then response.value else [], responselen / ptr);
  }
}
