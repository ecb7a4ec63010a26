/** What the codec's two directions mean, in the terms of the standards: byte
    ranges and values of UTF-8 sequences (section 3 of RFC 3629, and section
    4.4.7 of the Java Virtual Machine Specification for NUL), surrogate pairs
    (section 2.1 of RFC 2781). */
module CodecMeaning {
  import opened Basics
  import opened Codec

  predicate Continues(b: Byte) {
    0x80 <= b <= 0xbf
  }

  // The length that a leading byte announces; bytes from F8 on are taken for
  // leaders of four.
  predicate Announces(b: Byte, n: nat) {
    || (n == 1 && b <= 0x7f)
    || (n == 2 && 0xc0 <= b <= 0xdf)
    || (n == 3 && 0xe0 <= b <= 0xef)
    || (n == 4 && 0xf0 <= b)
  }

  // The first n bytes of t are a leader of n and its continuation bytes.
  predicate Whole(t: seq<Byte>, n: nat) {
    && 1 <= n <= |t| && Announces(t[0], n)
    && (n >= 2 ==> Continues(t[1])) && (n >= 3 ==> Continues(t[2])) && (n >= 4 ==> Continues(t[3]))
  }

  // The bits of a continuation byte.
  function Low(b: Byte): int {
    b - 0x80
  }

  /** The first n bytes of t are a sequence worth cp. */
  ghost predicate Stands(t: seq<Byte>, n: nat, cp: int) {
    && Whole(t, n)
    && (n == 1 ==> cp == t[0])
    && (n == 2 ==> cp == (t[0] as int - 0xc0) * 0x40 + Low(t[1]))
    && (n == 3 ==> cp == (t[0] as int - 0xe0) * 0x1000 + Low(t[1]) * 0x40 + Low(t[2]))
    && (n == 4 ==> cp == t[0] as int % 8 * 0x4_0000 + Low(t[1]) * 0x1000 + Low(t[2]) * 0x40 + Low(t[3]))
  }

  /** A high surrogate and a low one that stand for cp. */
  predicate IsPair(u: seq<Unit>, cp: int) {
    && |u| == 2 && 0xd800 <= u[0] <= 0xdbff && 0xdc00 <= u[1] <= 0xdfff
    && cp == 0x1_0000 + (u[0] as int - 0xd800) * 0x400 + (u[1] as int - 0xdc00)
  }

  /** The units of a code point; U+10FFFE and above become U+FFFD. */
  predicate Means(u: seq<Unit>, cp: int) {
    if cp <= 0xffff then u == [cp]
    else if cp <= 0x10_fffd then IsPair(u, cp)
    else u == [0xfffd]
  }

  lemma UnitsMean(cp: nat)
    ensures Means(Units(cp), cp)
  {
    if 0x1_0000 <= cp <= 0x10_fffd {
      var v := cp - 0x1_0000;
      assert v / 1024 < 1024 && v == v / 1024 * 1024 + v % 1024;
    }
  }

  lemma ContMeans(b: Byte)
    ensures Continues(b) <==> IsCont(b)
    ensures Continues(b) ==> b % 64 == Low(b)
  {}

  // A leader says how long its sequence is, and brings its own bits.
  lemma LeaderMeans(b: Byte, n: nat)
    requires Announces(b, n)
    ensures SeqLength(b) == n && !IsCont(b)
    ensures LeaderBits(b) == if n == 1 then b else if n == 2 then b - 0xc0 else if n == 3 then b - 0xe0 else b % 8
  {}

  lemma FollowOne(t: seq<Byte>, acc: nat, i: nat, n: nat)
    requires i < n && i < |t| && Continues(t[i])
    ensures Low(t[i]) >= 0 && Follow(t, acc, i, n) == Follow(t, acc * 0x40 + Low(t[i]), i + 1, n)
  {
    ContMeans(t[i]);
  }

  // A whole sequence is one character, of its value.
  lemma NextIsWhole(t: seq<Byte>, n: nat, cp: nat)
    requires Stands(t, n, cp)
    ensures NextChar(t) == (cp, n)
  {
    var a := LeaderBits(t[0]);
    LeaderMeans(t[0], n);
    if n >= 2 {
      FollowOne(t, a, 1, n);
      var b := a * 0x40 + Low(t[1]);
      if n >= 3 {
        FollowOne(t, b, 2, n);
        if n == 4 { FollowOne(t, b * 0x40 + Low(t[2]), 3, n); }
      }
    }
  }

  // Starts a character wherever it stands.
  predicate Boundary(t: seq<Byte>) {
    t == [] || !Continues(t[0])
  }

  lemma {:induction false} FollowAppend(a: seq<Byte>, b: seq<Byte>, acc: nat, i: nat, n: nat)
    requires Boundary(b) && i <= n && i <= |a|
    ensures Follow(a + b, acc, i, n) == Follow(a, acc, i, n)
    decreases n - i
  {
    if i < n && i < |a| && IsCont(a[i]) {
      FollowAppend(a, b, acc * 64 + a[i] % 64, i + 1, n);
    }
  }

  /** Where a character starts, a text can be cut: neither side's decoding
      depends on the other. */
  lemma {:induction false} DecodeAppend(a: seq<Byte>, b: seq<Byte>)
    requires Boundary(b)
    ensures Decode(a + b) == Decode(a) + Decode(b)
    decreases |a|
  {
    if a == [] {
      assert a + b == b;
    } else {
      FollowAppend(a, b, LeaderBits(a[0]), 1, SeqLength(a[0]));
      var (cp, k) := NextChar(a);
      assert NextChar(a + b) == (cp, k);
      assert (a + b)[k..] == a[k..] + b;
      DecodeAppend(a[k..], b);
      Associate(Units(cp), Decode(a[k..]), Decode(b));
    }
  }

  /** A whole sequence anywhere in a text is decoded to the units of its code
      point: one unit, or above the first plane a high and a low surrogate. */
  lemma SequenceDecoded(before: seq<Byte>, t: seq<Byte>, n: nat, cp: nat) returns (u: seq<Unit>)
    requires Stands(t, n, cp)
    ensures Means(u, cp) && Decode(before + t) == Decode(before) + u + Decode(t[n..])
  {
    u := Units(cp);
    UnitsMean(cp);
    NextIsWhole(t, n, cp);
    DecodeAppend(before, t);
    Associate(Decode(before), u, Decode(t[n..]));
  }

  /** A character that breaks off after n bytes is replaced, and the next one
      starts at the byte that broke it off. */
  lemma BrokenOffDecoded(before: seq<Byte>, t: seq<Byte>, n: nat, announced: nat)
    requires 1 <= n <= |t| && n < announced && Announces(t[0], announced)
    requires (forall i :: 1 <= i < n ==> Continues(t[i])) && Boundary(t[n..])
    ensures Decode(before + t) == Decode(before) + [0xfffd] + Decode(t[n..])
  {
    FollowBroken(t, LeaderBits(t[0]), 1, announced, n);
    DecodeAppend(before, t);
    Associate(Decode(before), [0xfffd], Decode(t[n..]));
  }

  lemma {:induction false} FollowBroken(t: seq<Byte>, acc: nat, i: nat, n: nat, broken: nat)
    requires 1 <= i <= broken < n && broken <= |t| && Boundary(t[broken..])
    requires forall j :: i <= j < broken ==> Continues(t[j])
    ensures Follow(t, acc, i, n) == (0xfffd, broken)
    decreases broken - i
  {
    if i < broken {
      FollowBroken(t, acc * 64 + t[i] % 64, i + 1, n, broken);
    } else if i < |t| {
      assert t[broken..][0] == t[i];
    }
  }

  /** A continuation byte without a leader is replaced. */
  lemma StrayDecoded(t: seq<Byte>)
    requires t != [] && Continues(t[0])
    ensures Decode(t) == [0xfffd] + Decode(t[1..])
  {}

  // An emoji.
  lemma EmojiDecoded()
    ensures Decode([0xf0, 0x9f, 0x98, 0x80]) == [0xd83d, 0xde00]
  {
    var t: seq<Byte> := [0xf0, 0x9f, 0x98, 0x80];
    var u := SequenceDecoded([], t, 4, 0x1_f600);
    assert [] + t == t && Decode(t[4..]) == [] && Decode([]) + u + [] == u;
  }

  /** Every unit is encoded by one sequence of its value, the shortest there is,
      except that NUL takes two bytes. */
  lemma UnitEncoded(u: Unit)
    ensures Stands(EncodeUnit(u), |EncodeUnit(u)|, u)
    ensures |EncodeUnit(u)| == if u == 0 then 2 else if u <= 0x7f then 1 else if u <= 0x7ff then 2 else 3
  {
    assert u / 4096 * 4096 + u / 64 % 64 * 64 + u % 64 == u by { LowBits(u); }
  }
}
