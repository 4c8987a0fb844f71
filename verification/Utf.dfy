/** Java's modified UTF-8 and UTF-16: two length passes and two copies that must agree. */
module Utf {

  type Byte = bv8
  type Unit = bv16

  const REPLACEMENT: bv32 := 0xfffd
  const UNICODE_UPPER_LIMIT: bv32 := 0x10fffd

  // --- 16 to 8 --------------------------------------------------------------------------------

  /** One unit of strncpy16to8: one to three bytes, and never a zero byte. */
  function EncodeUnit(u: Unit): (r: seq<Byte>)
    ensures 1 <= |r| <= 3
  {
    if u > 0x07ff then
      [((u >> 12) | 0xe0) as Byte, (((u >> 6) & 0x3f) | 0x80) as Byte, ((u & 0x3f) | 0x80) as Byte]
    else if u > 0x7f || u == 0 then
      [((u >> 6) | 0xc0) as Byte, ((u & 0x3f) | 0x80) as Byte]
    else
      [u as Byte]
  }

  function Encode(s: seq<Unit>): seq<Byte> {
    if s == [] then [] else EncodeUnit(s[0]) + Encode(s[1..])
  }

  // --- 8 to 16 --------------------------------------------------------------------------------

  predicate IsExtension(b: Byte) {
    b & 0xc0 == 0x80
  }

  /** `UTF8_SEQ_LENGTH`: 1 to 4, from the leading bits. */
  function SeqLength(ch: Byte): (n: int)
    ensures 1 <= n <= 4
  {
    (((0xe5000000 as bv32) >> ((ch >> 3) & 0x1e)) & 3) as int + 1
  }

  lemma SeqLengthTable(ch: Byte)
    ensures ch < 0xc0 ==> SeqLength(ch) == 1
    ensures 0xc0 <= ch < 0xe0 ==> SeqLength(ch) == 2
    ensures 0xe0 <= ch < 0xf0 ==> SeqLength(ch) == 3
    ensures 0xf0 <= ch ==> SeqLength(ch) == 4
  {
  }

  function LeadBits(ch: Byte, n: int): bv32
    requires 1 <= n <= 4
  {
    (ch & (if n == 1 then 0xff else if n == 2 then 0x1f else if n == 3 then 0x0f else 0x07)) as bv32
  }

  /** `getUtf32FromUtf8` at byte i of a string whose terminator is at |s|: a code point and the start of
      the next character. A stray extension byte, or a sequence cut short, gives the replacement. */
  function NextChar(s: seq<Byte>, i: nat): (r: (bv32, nat))
    requires i < |s|
    ensures i < r.1 <= |s|
  {
    if IsExtension(s[i]) then (REPLACEMENT, i + 1)
    else
      var n := SeqLength(s[i]);
      Tail(s, i + 1, n - 1, LeadBits(s[i], n))
  }

  /** `UTF8_SHIFT_AND_MASK`. */
  function ShiftAndMask(ret: bv32, b: Byte): bv32 {
    (ret << 6) | ((b & 0x3f) as bv32)
  }

  function Tail(s: seq<Byte>, i: nat, left: nat, ret: bv32): (r: (bv32, nat))
    requires i <= |s|
    ensures i <= r.1 <= |s|
    decreases left
  {
    if left == 0 then (ret, i)
    else if i == |s| || !IsExtension(s[i]) then (REPLACEMENT, i)
    else Tail(s, i + 1, left - 1, ShiftAndMask(ret, s[i]))
  }

  function HighSurrogate(c: bv32): Unit
    requires 0x10000 <= c <= UNICODE_UPPER_LIMIT
  {
    (0xd800 | ((c - 0x10000) >> 10)) as Unit
  }

  function LowSurrogate(c: bv32): Unit
    requires 0x10000 <= c <= UNICODE_UPPER_LIMIT
  {
    (0xdc00 | ((c - 0x10000) & 0x3ff)) as Unit
  }

  /** The units strcpy8to16 stores for one code point. */
  function Units(c: bv32): (r: seq<Unit>)
    ensures |r| == if 0x10000 <= c <= UNICODE_UPPER_LIMIT then 2 else 1
  {
    if c <= 0xffff then [c as Unit]
    else if c <= UNICODE_UPPER_LIMIT then [HighSurrogate(c), LowSurrogate(c)]
    else [REPLACEMENT as Unit]
  }

  function Decode(s: seq<Byte>, i: nat): seq<Unit>
    requires i <= |s|
    decreases |s| - i
  {
    if i == |s| then [] else Units(NextChar(s, i).0) + Decode(s, NextChar(s, i).1)
  }

  predicate IsHighSurrogate(u: Unit) { 0xd800 <= u < 0xdc00 }
  predicate IsLowSurrogate(u: Unit) { 0xdc00 <= u < 0xe000 }

  /** The ten bits that each half of a pair carries. */
  function HighTen(u: Unit): bv32 { (u as bv32) - 0xd800 }
  function LowTen(u: Unit): bv32 { (u as bv32) - 0xdc00 }

  /** The code point of a surrogate pair (section 2.2 of RFC 2781). */
  function Recombine(high: bv32, low: bv32): bv32 {
    0x10000 + ((high << 10) + low)
  }

  /** RFC 2781 section 2.1: a pair lies in the two surrogate ranges and recombines to its code point. */
  lemma PairRecombines(c: bv32)
    requires 0x10000 <= c <= UNICODE_UPPER_LIMIT
    ensures IsHighSurrogate(HighSurrogate(c)) && IsLowSurrogate(LowSurrogate(c))
    ensures Recombine(HighTen(HighSurrogate(c)), LowTen(LowSurrogate(c))) == c
  {
    hide HighSurrogate, LowSurrogate, IsHighSurrogate, IsLowSurrogate, HighTen, LowTen, Recombine;
    var x := c - 0x10000;
    var high, low := x >> 10, x & 0x3ff;
    HighHalf(c, x, high);
    LowHalf(c, x, low);
    TwentyBits(c, x, high, low);
  }

  lemma HighHalf(c: bv32, x: bv32, high: bv32)
    requires 0x10000 <= c <= UNICODE_UPPER_LIMIT && x == c - 0x10000 && high == x >> 10
    ensures IsHighSurrogate(HighSurrogate(c)) && HighTen(HighSurrogate(c)) == high
  {
    HighBits(x);
    HighUnit(0xd800 | (x >> 10), high);
  }

  lemma HighBits(x: bv32)
    requires x <= 0xfffff
    ensures 0xd800 <= 0xd800 | (x >> 10) < 0xdc00 && (0xd800 | (x >> 10)) - 0xd800 == x >> 10
  {
  }

  lemma HighUnit(w: bv32, high: bv32)
    requires 0xd800 <= w < 0xdc00 && w - 0xd800 == high
    ensures IsHighSurrogate(w as Unit) && HighTen(w as Unit) == high
  {
    Narrow(w);
  }

  lemma LowHalf(c: bv32, x: bv32, low: bv32)
    requires 0x10000 <= c <= UNICODE_UPPER_LIMIT && x == c - 0x10000 && low == x & 0x3ff
    ensures IsLowSurrogate(LowSurrogate(c)) && LowTen(LowSurrogate(c)) == low
  {
    LowBits(x);
    LowUnit(0xdc00 | (x & 0x3ff), low);
  }

  lemma LowBits(x: bv32)
    ensures 0xdc00 <= 0xdc00 | (x & 0x3ff) < 0xe000 && (0xdc00 | (x & 0x3ff)) - 0xdc00 == x & 0x3ff
  {
  }

  lemma LowUnit(w: bv32, low: bv32)
    requires 0xdc00 <= w < 0xe000 && w - 0xdc00 == low
    ensures IsLowSurrogate(w as Unit) && LowTen(w as Unit) == low
  {
    Narrow(w);
  }

  lemma TwentyBits(c: bv32, x: bv32, high: bv32, low: bv32)
    requires 0x10000 <= c <= UNICODE_UPPER_LIMIT && x == c - 0x10000 && high == x >> 10 && low == x & 0x3ff
    ensures Recombine(high, low) == c
  {
    TenAndTen(x);
  }

  lemma TenAndTen(x: bv32)
    ensures ((x >> 10) << 10) + (x & 0x3ff) == x
  {
  }

  lemma Narrow(x: bv32)
    requires x <= 0xffff
    ensures (x as Unit) as bv32 == x
  {
  }

  lemma Widen(u: Unit)
    ensures u as bv32 <= 0xffff && (u as bv32) as Unit == u
  {
  }

  // --- the round trip -------------------------------------------------------------------------

  /** The bytes of one unit decode to that unit, whatever precedes and follows them. */
  lemma UnitDecodes(s: seq<Byte>, i: nat, u: Unit)
    requires i + |EncodeUnit(u)| <= |s| && s[i..i + |EncodeUnit(u)|] == EncodeUnit(u)
    ensures NextChar(s, i) == (u as bv32, i + |EncodeUnit(u)|)
    ensures Units(u as bv32) == [u]
  {
    Widen(u);
    if u > 0x07ff {
      LongUnitDecodes(s, i, u);
    } else if u > 0x7f || u == 0 {
      MediumUnitDecodes(s, i, u);
    } else {
      ShortUnitDecodes(s, i, u);
    }
  }

  lemma LongUnitDecodes(s: seq<Byte>, i: nat, u: Unit)
    requires u > 0x07ff && i + |EncodeUnit(u)| <= |s| && s[i..i + |EncodeUnit(u)|] == EncodeUnit(u)
    ensures NextChar(s, i) == (u as bv32, i + |EncodeUnit(u)|)
  {
    hide IsExtension, LeadBits, SeqLength, EncodeUnit, NextChar;
    var e := s[i..i + |EncodeUnit(u)|];
    ThreeBytes(u);
    SeqLengthTable(e[0]);
    assert s[i] == e[0] && s[i + 1] == e[1] && s[i + 2] == e[2];
    NextOfThree(s, i);
  }

  lemma MediumUnitDecodes(s: seq<Byte>, i: nat, u: Unit)
    requires u <= 0x07ff && (u > 0x7f || u == 0)
    requires i + |EncodeUnit(u)| <= |s| && s[i..i + |EncodeUnit(u)|] == EncodeUnit(u)
    ensures NextChar(s, i) == (u as bv32, i + |EncodeUnit(u)|)
  {
    hide IsExtension, LeadBits, SeqLength, EncodeUnit, NextChar;
    var e := s[i..i + |EncodeUnit(u)|];
    TwoBytes(u);
    SeqLengthTable(e[0]);
    assert s[i] == e[0] && s[i + 1] == e[1];
    NextOfTwo(s, i);
  }

  lemma ShortUnitDecodes(s: seq<Byte>, i: nat, u: Unit)
    requires 0 < u <= 0x7f && i + |EncodeUnit(u)| <= |s| && s[i..i + |EncodeUnit(u)|] == EncodeUnit(u)
    ensures NextChar(s, i) == (u as bv32, i + |EncodeUnit(u)|)
  {
    hide IsExtension, LeadBits, SeqLength, EncodeUnit, NextChar;
    var e := s[i..i + |EncodeUnit(u)|];
    OneByte(u);
    SeqLengthTable(e[0]);
    assert s[i] == e[0];
    NextOfOne(s, i);
  }

  lemma NextOfThree(s: seq<Byte>, i: nat)
    requires i + 3 <= |s| && !IsExtension(s[i]) && SeqLength(s[i]) == 3
    requires IsExtension(s[i + 1]) && IsExtension(s[i + 2])
    ensures NextChar(s, i)
            == (ShiftAndMask(ShiftAndMask(LeadBits(s[i], 3), s[i + 1]), s[i + 2]), i + 3)
  {
    hide IsExtension, LeadBits, SeqLength, ShiftAndMask;
    var mid := ShiftAndMask(LeadBits(s[i], 3), s[i + 1]);
    assert Tail(s, i + 1, 2, LeadBits(s[i], 3)) == Tail(s, i + 2, 1, mid);
  }

  lemma NextOfTwo(s: seq<Byte>, i: nat)
    requires i + 2 <= |s| && !IsExtension(s[i]) && SeqLength(s[i]) == 2 && IsExtension(s[i + 1])
    ensures NextChar(s, i) == (ShiftAndMask(LeadBits(s[i], 2), s[i + 1]), i + 2)
  {
    hide IsExtension, LeadBits, SeqLength;
  }

  lemma NextOfOne(s: seq<Byte>, i: nat)
    requires i < |s| && !IsExtension(s[i]) && SeqLength(s[i]) == 1
    ensures NextChar(s, i) == (LeadBits(s[i], 1), i + 1)
  {
    hide IsExtension, LeadBits, SeqLength;
  }

  lemma ThreeBytes(u: Unit)
    requires u > 0x07ff
    ensures var e := EncodeUnit(u);
            && |e| == 3 && 0xe0 <= e[0] < 0xf0 && !IsExtension(e[0]) && IsExtension(e[1]) && IsExtension(e[2])
            && ShiftAndMask(ShiftAndMask(LeadBits(e[0], 3), e[1]), e[2]) == u as bv32
  {
  }

  lemma TwoBytes(u: Unit)
    requires u <= 0x07ff && (u > 0x7f || u == 0)
    ensures var e := EncodeUnit(u);
            && |e| == 2 && 0xc0 <= e[0] < 0xe0 && !IsExtension(e[0]) && IsExtension(e[1])
            && ShiftAndMask(LeadBits(e[0], 2), e[1]) == u as bv32
  {
  }

  lemma OneByte(u: Unit)
    requires 0 < u <= 0x7f
    ensures var e := EncodeUnit(u);
            |e| == 1 && 0 < e[0] < 0x80 && !IsExtension(e[0]) && LeadBits(e[0], 1) == u as bv32
  {
  }

  /** Every unit is written in as few bytes as hold it, except zero, which takes two. */
  lemma EncodedSize(u: Unit)
    ensures |EncodeUnit(u)| == if 0x01 <= u <= 0x7f then 1 else if u <= 0x7ff then 2 else 3
  {
  }

  /** Every sequence of units, zeros and lone surrogates included, survives the trip to bytes and back. */
  lemma RoundTrip(s: seq<Unit>)
    ensures Decode(Encode(s), 0) == s
  {
    assert [] + Encode(s) == Encode(s);
    DecodeEncoded([], s);
  }

  lemma EncodeStep(s: seq<Unit>)
    ensures Encode(s) == if s == [] then [] else EncodeUnit(s[0]) + Encode(s[1..])
  {
  }

  lemma {:induction false} DecodeEncoded(before: seq<Byte>, s: seq<Unit>)
    ensures Decode(before + Encode(s), |before|) == s
    decreases |s|
  {
    hide EncodeUnit, NextChar, Units, Encode;
    EncodeStep(s);
    if s != [] {
      var e := EncodeUnit(s[0]);
      var all := before + Encode(s);
      assert all == (before + e) + Encode(s[1..]);
      assert all[|before|..|before| + |e|] == e;
      UnitDecodes(all, |before|, s[0]);
      DecodeEncoded(before + e, s[1..]);
      assert s == [s[0]] + s[1..];
    }
  }

  lemma {:induction false} NoZeroByte(s: seq<Unit>)
    ensures 0 !in Encode(s)
  {
    if s != [] {
      if s[0] > 0x07ff {
        ThreeBytes(s[0]);
      } else if s[0] > 0x7f || s[0] == 0 {
        TwoBytes(s[0]);
      } else {
        OneByte(s[0]);
      }
      NoZeroByte(s[1..]);
    }
  }

  // --- standard UTF-8 -------------------------------------------------------------------------

  /** The four bytes of a supplementary code point in standard UTF-8 (section 3 of RFC 3629). */
  function FourBytes(c: bv32): (r: seq<Byte>)
    requires 0x10000 <= c <= UNICODE_UPPER_LIMIT
    ensures |r| == 4
  {
    [(0xf0 | (c >> 18)) as Byte, (0x80 | ((c >> 12) & 0x3f)) as Byte, (0x80 | ((c >> 6) & 0x3f)) as Byte,
     (0x80 | (c & 0x3f)) as Byte]
  }

  lemma FourBytesRecombine(c: bv32)
    requires 0x10000 <= c <= UNICODE_UPPER_LIMIT
    ensures var e := FourBytes(c);
            && 0xf0 <= e[0] && !IsExtension(e[0]) && IsExtension(e[1]) && IsExtension(e[2]) && IsExtension(e[3])
            && ShiftAndMask(ShiftAndMask(ShiftAndMask(LeadBits(e[0], 4), e[1]), e[2]), e[3]) == c
  {
  }

  lemma NextOfFour(s: seq<Byte>, i: nat)
    requires i + 4 <= |s| && !IsExtension(s[i]) && SeqLength(s[i]) == 4
    requires IsExtension(s[i + 1]) && IsExtension(s[i + 2]) && IsExtension(s[i + 3])
    ensures NextChar(s, i)
            == (ShiftAndMask(ShiftAndMask(ShiftAndMask(LeadBits(s[i], 4), s[i + 1]), s[i + 2]), s[i + 3]), i + 4)
  {
    hide IsExtension, LeadBits, SeqLength, ShiftAndMask;
    var one := ShiftAndMask(LeadBits(s[i], 4), s[i + 1]);
    var two := ShiftAndMask(one, s[i + 2]);
    assert Tail(s, i + 1, 3, LeadBits(s[i], 4)) == Tail(s, i + 2, 2, one);
    assert Tail(s, i + 2, 2, one) == Tail(s, i + 3, 1, two);
  }

  /** The standard bytes of a supplementary code point, wherever they stand, decode to it, and are stored as its high
      surrogate and then its low one. */
  lemma SupplementaryDecodes(s: seq<Byte>, i: nat, c: bv32)
    requires 0x10000 <= c <= UNICODE_UPPER_LIMIT && i + 4 <= |s| && s[i..i + 4] == FourBytes(c)
    ensures NextChar(s, i) == (c, i + 4)
    ensures Decode(s, i) == Units(c) + Decode(s, i + 4)
    ensures |Units(c)| == 2 && IsHighSurrogate(Units(c)[0]) && IsLowSurrogate(Units(c)[1])
    ensures Recombine(HighTen(Units(c)[0]), LowTen(Units(c)[1])) == c
  {
    hide IsExtension, LeadBits, SeqLength, FourBytes, HighSurrogate, LowSurrogate, HighTen, LowTen, Recombine;
    hide IsHighSurrogate, IsLowSurrogate;
    var e := s[i..i + 4];
    FourBytesRecombine(c);
    SeqLengthTable(e[0]);
    assert s[i] == e[0] && s[i + 1] == e[1] && s[i + 2] == e[2] && s[i + 3] == e[3];
    NextOfFour(s, i);
    PairRecombines(c);
  }

  /** A code point of standard UTF-8, other than zero, and its bytes: up to three as the encoder here writes them, four
      beyond. */
  predicate IsCodePoint(c: bv32) {
    0 < c <= UNICODE_UPPER_LIMIT
  }

  function StandardBytes(c: bv32): seq<Byte>
    requires IsCodePoint(c)
  {
    if c <= 0xffff then EncodeUnit(c as Unit) else FourBytes(c)
  }

  lemma StandardChar(s: seq<Byte>, i: nat, c: bv32)
    requires IsCodePoint(c) && i + |StandardBytes(c)| <= |s| && s[i..i + |StandardBytes(c)|] == StandardBytes(c)
    ensures StandardBytes(c) != [] && NextChar(s, i) == (c, i + |StandardBytes(c)|)
  {
    hide EncodeUnit, FourBytes, NextChar, Units;
    if c <= 0xffff {
      Narrow(c);
      UnitDecodes(s, i, c as Unit);
    } else {
      SupplementaryDecodes(s, i, c);
    }
  }

  predicate AreCodePoints(cs: seq<bv32>) {
    forall k :: 0 <= k < |cs| ==> IsCodePoint(cs[k])
  }

  function Standard(cs: seq<bv32>): seq<Byte>
    requires AreCodePoints(cs)
  {
    if cs == [] then [] else StandardBytes(cs[0]) + Standard(cs[1..])
  }

  function Utf16(cs: seq<bv32>): seq<Unit> {
    if cs == [] then [] else Units(cs[0]) + Utf16(cs[1..])
  }

  /** Standard UTF-8 of any code points is copied as their UTF-16. */
  lemma {:induction false} StandardDecodes(before: seq<Byte>, cs: seq<bv32>)
    requires AreCodePoints(cs)
    ensures Decode(before + Standard(cs), |before|) == Utf16(cs)
    decreases |cs|
  {
    hide StandardBytes, NextChar, Units, IsCodePoint, Decode;
    if cs == [] {
      assert before + [] == before;
      DecodeEnd(before);
    } else {
      var c := cs[0];
      assert IsCodePoint(c);
      var e, rest := StandardBytes(c), Standard(cs[1..]);
      assert before + (e + rest) == (before + e) + rest;
      assert (before + e + rest)[|before|..|before| + |e|] == e;
      StandardChar(before + e + rest, |before|, c);
      DecodeStep(before + e + rest, |before|);
      StandardDecodes(before + e, cs[1..]);
    }
  }

  lemma DecodeEnd(s: seq<Byte>)
    ensures Decode(s, |s|) == []
  {
  }

  lemma DecodeStep(s: seq<Byte>, i: nat)
    requires i < |s|
    ensures Decode(s, i) == Units(NextChar(s, i).0) + Decode(s, NextChar(s, i).1)
  {
    hide NextChar, Units;
  }

  // --- malformed bytes ------------------------------------------------------------------------

  /** The bytes from i to j are extension bytes. */
  predicate AreExtensions(s: seq<Byte>, i: nat, j: nat) {
    i <= j <= |s| && forall k :: i <= k < j ==> 0x80 <= s[k] < 0xc0
  }

  lemma ExtensionRange(b: Byte)
    ensures IsExtension(b) <==> 0x80 <= b < 0xc0
  {
  }

  lemma {:induction false} TailStops(s: seq<Byte>, i: nat, j: nat, left: nat, ret: bv32)
    requires AreExtensions(s, i, j) && j - i < left && (j < |s| ==> !(0x80 <= s[j] < 0xc0))
    ensures Tail(s, i, left, ret) == (REPLACEMENT, j)
    decreases j - i
  {
    hide IsExtension, ShiftAndMask;
    if i < |s| {
      ExtensionRange(s[i]);
    }
    if i < j {
      TailStops(s, i + 1, j, left - 1, ShiftAndMask(ret, s[i]));
    }
  }

  /** What decodes to the replacement character: an extension byte that nothing announced, alone; and a sequence with
      too few extension bytes, up to the byte that is none, which is read again. */
  lemma MalformedDecodes(s: seq<Byte>, i: nat, j: nat)
    requires i < |s|
    ensures 0x80 <= s[i] < 0xc0 ==> NextChar(s, i) == (0xfffd, i + 1)
    ensures var n := if s[i] < 0xc0 then 1 else if s[i] < 0xe0 then 2 else if s[i] < 0xf0 then 3 else 4;
            && !(0x80 <= s[i] < 0xc0) && AreExtensions(s, i + 1, j) && j - i < n
            && (j < |s| ==> !(0x80 <= s[j] < 0xc0)) ==>
              NextChar(s, i) == (0xfffd, j)
  {
    hide IsExtension, SeqLength, LeadBits, Tail;
    ExtensionRange(s[i]);
    SeqLengthTable(s[i]);
    var n := if s[i] < 0xc0 then 1 else if s[i] < 0xe0 then 2 else if s[i] < 0xf0 then 3 else 4;
    if !IsExtension(s[i]) && AreExtensions(s, i + 1, j) && j - i < n && (j < |s| ==> !(0x80 <= s[j] < 0xc0)) {
      TailStops(s, i + 1, j, n - 1, LeadBits(s[i], n));
    }
  }

  /** A code point past the limit is stored as the replacement character. */
  lemma TooLarge(c: bv32)
    requires c > UNICODE_UPPER_LIMIT
    ensures Units(c) == [0xfffd]
  {
    assert REPLACEMENT as Unit == 0xfffd;
  }

  // --- strlen8to16 ----------------------------------------------------------------------------

  /** `strlen8to16` from byte i on, with its running count of expected extension bytes. */
  function Count(s: seq<Byte>, i: nat, expected: int): nat
    requires i <= |s|
    decreases |s| - i
  {
    if i == |s| then 0
    else if IsExtension(s[i]) then (if expected - 1 < 0 then 1 else 0) + Count(s, i + 1, expected - 1)
    else
      var n := SeqLength(s[i]);
      1 + (if n - 1 == 3 then 1 else 0) + Count(s, i + 1, n - 1)
  }

  /** A four-byte lead at i that the copy does not turn into a surrogate pair. */
  predicate Unpaired(s: seq<Byte>, i: nat)
    requires i < |s|
  {
    !IsExtension(s[i]) && SeqLength(s[i]) == 4 && !(0x10000 <= NextChar(s, i).0 <= UNICODE_UPPER_LIMIT)
  }

  /** The four-byte leads from i on that do not become pairs. */
  function UnpairedLeads(s: seq<Byte>, i: nat): nat
    requires i <= |s|
    decreases |s| - i
  {
    if i == |s| then 0 else (if Unpaired(s, i) then 1 else 0) + UnpairedLeads(s, NextChar(s, i).1)
  }

  /** Once nothing more is expected, or the next byte is not an extension, the count starts afresh. */
  lemma {:induction false} CountAfresh(s: seq<Byte>, i: nat, expected: int)
    requires i <= |s| && (expected <= 0 || i == |s| || !IsExtension(s[i]))
    ensures Count(s, i, expected) == Count(s, i, 0)
    decreases |s| - i
  {
    hide IsExtension, SeqLength;
    if i < |s| && IsExtension(s[i]) {
      CountAfresh(s, i + 1, expected - 1);
      CountAfresh(s, i + 1, -1);
    }
  }

  /** The extension bytes that a sequence consumes are not counted. */
  lemma {:induction false} CountTail(s: seq<Byte>, i: nat, left: nat, ret: bv32)
    requires i <= |s|
    ensures Count(s, i, left) == Count(s, Tail(s, i, left, ret).1, 0)
    decreases left
  {
    hide IsExtension, SeqLength;
    if left == 0 || i == |s| || !IsExtension(s[i]) {
      CountAfresh(s, i, left);
    } else {
      CountTail(s, i + 1, left - 1, ShiftAndMask(ret, s[i]));
    }
  }

  /** A sequence of at most three bytes cannot reach the supplementary planes. */
  lemma ShortSequence(s: seq<Byte>, i: nat)
    requires i < |s| && (IsExtension(s[i]) || SeqLength(s[i]) != 4)
    ensures NextChar(s, i).0 <= 0xffff
  {
    if !IsExtension(s[i]) {
      var n := SeqLength(s[i]);
      SeqLengthTable(s[i]);
      var lead := LeadBits(s[i], n);
      if n == 2 {
        LeadTwo(s[i]);
        if i + 1 < |s| { TailBits(lead, s[i + 1], 0x1f); }
      } else if n == 3 {
        LeadThree(s[i]);
        if i + 1 < |s| {
          TailBits(lead, s[i + 1], 0x0f);
          var mid := ShiftAndMask(lead, s[i + 1]);
          if i + 2 < |s| { TailBits(mid, s[i + 2], 0x3ff); }
        }
      }
    }
  }

  lemma LeadTwo(b: Byte)
    ensures LeadBits(b, 2) <= 0x1f
  {
  }

  lemma LeadThree(b: Byte)
    ensures LeadBits(b, 3) <= 0x0f
  {
  }

  lemma TailBits(ret: bv32, b: Byte, bound: bv32)
    requires ret <= bound && (bound == 0x0f || bound == 0x1f || bound == 0x3ff)
    ensures ShiftAndMask(ret, b) <= (bound << 6) | 0x3f <= 0xffff
  {
  }

  /** On any bytes, malformed or not, the length pass counts the units the copy stores plus one for every
      four-byte lead that does not become a pair. */
  lemma {:induction false} TwoPasses(s: seq<Byte>, i: nat)
    requires i <= |s|
    ensures Count(s, i, 0) == |Decode(s, i)| + UnpairedLeads(s, i)
    decreases |s| - i
  {
    hide IsExtension, SeqLength, LeadBits;
    if i < |s| {
      TwoPasses(s, NextChar(s, i).1);
      OneCharacter(s, i);
    }
  }

  /** The two passes over one character. */
  lemma OneCharacter(s: seq<Byte>, i: nat)
    requires i < |s|
    ensures var next := NextChar(s, i).1;
            Count(s, i, 0) - |Decode(s, i)| - UnpairedLeads(s, i)
            == Count(s, next, 0) - |Decode(s, next)| - UnpairedLeads(s, next)
  {
    hide IsExtension, SeqLength, LeadBits;
    if IsExtension(s[i]) {
      CountAfresh(s, i + 1, -1);
    } else {
      var n := SeqLength(s[i]);
      CountTail(s, i + 1, n - 1, LeadBits(s[i], n));
      if n != 4 {
        ShortSequence(s, i);
      }
    }
  }

  /** So the buffer strdup8to16 allocates is never too small, and exactly large enough just when every
      four-byte lead decodes to a surrogate pair. */
  lemma CopyFits(s: seq<Byte>)
    ensures |Decode(s, 0)| <= Count(s, 0, 0)
    ensures |Decode(s, 0)| == Count(s, 0, 0) <==> UnpairedLeads(s, 0) == 0
  {
    TwoPasses(s, 0);
  }

  /** On encoded text the two passes agree, so strlen8to16 gives back the original length. */
  lemma EncodedLength(s: seq<Unit>)
    ensures Count(Encode(s), 0, 0) == |s|
  {
    RoundTrip(s);
    TwoPasses(Encode(s), 0);
    assert [] + Encode(s) == Encode(s);
    NoUnpaired([], s);
  }

  lemma {:induction false} NoUnpaired(before: seq<Byte>, s: seq<Unit>)
    ensures UnpairedLeads(before + Encode(s), |before|) == 0
    decreases |s|
  {
    hide EncodeUnit, NextChar, Units, SeqLength, IsExtension;
    if s != [] {
      var e := EncodeUnit(s[0]);
      var all := before + Encode(s);
      assert all == (before + e) + Encode(s[1..]);
      assert all[|before|..|before| + |e|] == e;
      UnitDecodes(all, |before|, s[0]);
      NotFourByte(s[0]);
      assert all[|before|] == e[0];
      NoUnpaired(before + e, s[1..]);
    }
  }

  lemma NotFourByte(u: Unit)
    ensures SeqLength(EncodeUnit(u)[0]) != 4
  {
    SeqLengthTable(EncodeUnit(u)[0]);
    if u > 0x07ff {
      ThreeBytes(u);
    } else if u > 0x7f || u == 0 {
      TwoBytes(u);
    } else {
      OneByte(u);
    }
  }

  // --- the code -------------------------------------------------------------------------------

  lemma {:induction false} EncodeAppend(a: seq<Unit>, b: seq<Unit>)
    ensures Encode(a + b) == Encode(a) + Encode(b)
  {
    hide EncodeUnit, Encode;
    EncodeStep(a);
    EncodeStep(a + b);
    if a == [] {
      assert a + b == b;
    } else {
      EncodeAppend(a[1..], b);
      assert (a + b)[1..] == a[1..] + b;
      assert EncodeUnit(a[0]) + (Encode(a[1..]) + Encode(b)) == EncodeUnit(a[0]) + Encode(a[1..]) + Encode(b);
    }
  }

  lemma EncodeOneMore(s: seq<Unit>, i: nat)
    requires i < |s|
    ensures Encode(s[..i + 1]) == Encode(s[..i]) + EncodeUnit(s[i])
  {
    hide EncodeUnit, Encode;
    assert s[..i + 1] == s[..i] + [s[i]];
    EncodeAppend(s[..i], [s[i]]);
    EncodeStep([s[i]]);
    EncodeStep([]);
    assert [s[i]][1..] == [];
    assert EncodeUnit(s[i]) + [] == EncodeUnit(s[i]);
  }

  lemma {:induction false} EncodeAtMostTriples(s: seq<Unit>)
    ensures |Encode(s)| <= 3 * |s|
  {
    if s != [] {
      EncodeAtMostTriples(s[1..]);
    }
  }

  /** The bytes that one unit adds to the length. */
  function Width(u: Unit): (n: nat)
    ensures n == |EncodeUnit(u)|
  {
    if u > 0x07ff then 3 else if u > 0x7f || u == 0 then 2 else 1
  }

  /** `strnlen16to8` with size_t values 0..sizeMax: the encoded length, held at sizeMax - 1. */
  method StrnLen16To8(s: seq<Unit>, sizeMax: nat) returns (len: nat)
    requires sizeMax > 3 && |s| <= sizeMax
    ensures len == if |Encode(s)| < sizeMax - 1 then |Encode(s)| else sizeMax - 1
  {
    hide EncodeUnit, Encode;
    EncodeStep([]);
    assert s[..0] == [] && s[..|s|] == s;
    EncodeAtMostTriples(s);
    var utf8Len := 0;
    if |s| < (sizeMax - 1) / 3 {
      for i := 0 to |s|
        invariant utf8Len == |Encode(s[..i])|
      {
        EncodeOneMore(s, i);
        utf8Len := utf8Len + Width(s[i]);
      }
      return utf8Len;
    }
    for i := 0 to |s|
      invariant utf8Len == |Encode(s[..i])| <= sizeMax
    {
      EncodeOneMore(s, i);
      EncodePrefix(s, i + 1);
      var utf8Cur := utf8Len;
      utf8Len := (utf8Len + Width(s[i])) % (sizeMax + 1);
      SizeWraps(utf8Cur, Width(s[i]), sizeMax);
      if utf8Len < utf8Cur {
        return sizeMax - 1;
      }
    }
    if utf8Len == sizeMax {
      utf8Len := sizeMax - 1;
    }
    return utf8Len;
  }

  lemma EncodePrefix(s: seq<Unit>, i: nat)
    requires i <= |s|
    ensures |Encode(s[..i])| <= |Encode(s)|
  {
    assert s == s[..i] + s[i..];
    EncodeAppend(s[..i], s[i..]);
  }

  /** A size_t sum that wraps comes out smaller, so the comparison detects every overflow. */
  lemma SizeWraps(cur: nat, n: nat, sizeMax: nat)
    requires cur <= sizeMax && 1 <= n <= 3 < sizeMax
    ensures if cur + n <= sizeMax then (cur + n) % (sizeMax + 1) == cur + n else (cur + n) % (sizeMax + 1) < cur
  {
    if cur + n > sizeMax {
      assert (cur + n) % (sizeMax + 1) == cur + n - (sizeMax + 1) by {
        SmallRemainder(cur + n - (sizeMax + 1), sizeMax + 1);
      }
    }
  }

  lemma SmallRemainder(r: nat, n: nat)
    requires r < n
    ensures (r + n) % n == r
  {
  }

  /** `strncpy16to8`: the encoding and a terminator, filling exactly strnlen16to8 + 1 bytes. */
  method StrnCpy16To8(dest: array<Byte>, s: seq<Unit>)
    requires dest.Length >= |Encode(s)| + 1
    modifies dest
    ensures dest[..|Encode(s)|] == Encode(s) && dest[|Encode(s)|] == 0
    ensures dest[|Encode(s)| + 1..] == old(dest[|Encode(s)| + 1..])
  {
    hide Encode, EncodeUnit;
    EncodeStep([]);
    assert s[..0] == [] && s[..|s|] == s;
    var cur := 0;
    for i := 0 to |s|
      invariant cur == |Encode(s[..i])| <= |Encode(s)| && dest[..cur] == Encode(s[..i])
      invariant dest[|Encode(s)| + 1..] == old(dest[|Encode(s)| + 1..])
    {
      EncodeOneMore(s, i);
      EncodePrefix(s, i + 1);
      cur := PutUnit(dest, cur, s[i]);
    }
    dest[cur] := 0;
  }

  /** The stores for one unit through `utf8cur`. */
  method PutUnit(dest: array<Byte>, at: nat, uic: Unit) returns (cur: nat)
    requires at + |EncodeUnit(uic)| <= dest.Length
    modifies dest
    ensures cur == at + |EncodeUnit(uic)| && dest[..cur] == old(dest[..at]) + EncodeUnit(uic)
    ensures dest[cur..] == old(dest[cur..])
  {
    if uic > 0x07ff {
      dest[at] := ((uic >> 12) | 0xe0) as Byte;
      dest[at + 1] := (((uic >> 6) & 0x3f) | 0x80) as Byte;
      dest[at + 2] := ((uic & 0x3f) | 0x80) as Byte;
      cur := at + 3;
    } else if uic > 0x7f || uic == 0 {
      dest[at] := ((uic >> 6) | 0xc0) as Byte;
      dest[at + 1] := ((uic & 0x3f) | 0x80) as Byte;
      cur := at + 2;
    } else {
      dest[at] := uic as Byte;
      cur := at + 1;
    }
  }

  /** `strlen8to16`. */
  method StrLen8To16(s: seq<Byte>) returns (len: nat)
    ensures len == Count(s, 0, 0)
  {
    hide IsExtension, SeqLength;
    len := 0;
    var expected := 0;
    for i := 0 to |s|
      invariant len + Count(s, i, expected) == Count(s, 0, 0)
    {
      if IsExtension(s[i]) {
        expected := expected - 1;
        if expected < 0 {
          len := len + 1;
        }
      } else {
        len := len + 1;
        expected := SeqLength(s[i]) - 1;
        if expected == 3 {
          len := len + 1;
        }
      }
    }
  }

  /** `getUtf32FromUtf8`. */
  method GetUtf32(s: seq<Byte>, start: nat) returns (ret: bv32, i: nat)
    requires start < |s|
    ensures (ret, i) == NextChar(s, start)
  {
    hide IsExtension, SeqLength, LeadBits;
    i := start;
    if IsExtension(s[i]) {
      return REPLACEMENT, i + 1;
    }
    var seqLen := SeqLength(s[i]);
    ret := LeadBits(s[i], seqLen);
    i := i + 1;
    var k := 1;
    while k < seqLen
      invariant 1 <= k <= seqLen && i <= |s|
      invariant Tail(s, i, seqLen - k, ret) == NextChar(s, start)
    {
      if i == |s| {
        return REPLACEMENT, i;
      }
      if !IsExtension(s[i]) {
        return REPLACEMENT, i;
      }
      ret := (ret << 6) | ((s[i] & 0x3f) as bv32);
      k, i := k + 1, i + 1;
    }
  }

  /** One code point: a unit, a surrogate pair, or the replacement character. */
  method StoreUnits(dest: array<Unit>, at: nat, ret: bv32) returns (outLen: nat)
    requires at + |Units(ret)| <= dest.Length
    modifies dest
    ensures outLen == at + |Units(ret)| && dest[..outLen] == old(dest[..at]) + Units(ret)
    ensures dest[outLen..] == old(dest[at + |Units(ret)|..])
  {
    hide HighSurrogate, LowSurrogate;
    if ret <= 0xffff {
      dest[at] := ret as Unit;
      outLen := at + 1;
    } else if ret <= UNICODE_UPPER_LIMIT {
      dest[at] := HighSurrogate(ret);
      dest[at + 1] := LowSurrogate(ret);
      outLen := at + 2;
    } else {
      dest[at] := REPLACEMENT as Unit;
      outLen := at + 1;
    }
  }

  /** `strcpy8to16` into a buffer of strlen8to16 units: it stops at the terminator, never writes past the
      buffer, and stores exactly the decoded units. */
  method StrCpy8To16(dest: array<Unit>, s: seq<Byte>) returns (outLen: nat)
    requires dest.Length >= Count(s, 0, 0)
    modifies dest
    ensures outLen == |Decode(s, 0)| <= dest.Length && dest[..outLen] == Decode(s, 0)
    ensures dest[outLen..] == old(dest[outLen..])
  {
    hide NextChar, Count, Units;
    CopyFits(s);
    ghost var all := Decode(s, 0);
    var i := 0;
    outLen := 0;
    while i < |s|
      invariant i <= |s| && outLen + |Decode(s, i)| == |all|
      invariant dest[..outLen] + Decode(s, i) == all
      invariant dest[|all|..] == old(dest[|all|..])
      decreases |s| - i
    {
      ghost var before, rest := dest[..outLen], Decode(s, i);
      var ret, next := GetUtf32(s, i);
      assert rest == Units(ret) + Decode(s, next);
      outLen := StoreUnits(dest, outLen, ret);
      assert dest[..outLen] == before + Units(ret);
      assert dest[..outLen] + Decode(s, next) == before + rest;
      assert dest[|all|..] == dest[outLen..][|all| - outLen..];
      i := next;
    }
  }
}
