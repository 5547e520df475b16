/**
 Offsets into a string counted in UTF-8 bytes or in UTF-16 units (RFC 3629 section 3, RFC 2781 section
 2.1), and the conversions between the two.
 */
module Encodings {
  datatype Encoding = Utf8 | Utf16

  function Len(enc: Encoding, c: char): (n: nat)
    ensures 1 <= n <= 4
  {
    match enc
    case Utf8 => if c as int < 0x80 then 1 else if c as int < 0x800 then 2 else if c as int < 0x1_0000 then 3 else 4
    case Utf16 => if c as int < 0x1_0000 then 1 else 2
  }

  /** The bytes of a character in UTF-8, or its units in UTF-16. */
  function Encoded(enc: Encoding, c: char): seq<int> {
    var n := c as int;
    match enc
    case Utf8 =>
      if n < 0x80 then [n]
      else if n < 0x800 then [0xC0 + n / 0x40, 0x80 + n % 0x40]
      else if n < 0x1_0000 then [0xE0 + n / 0x1000, 0x80 + n / 0x40 % 0x40, 0x80 + n % 0x40]
      else [0xF0 + n / 0x4_0000, 0x80 + n / 0x1000 % 0x40, 0x80 + n / 0x40 % 0x40, 0x80 + n % 0x40]
    case Utf16 =>
      if n < 0x1_0000 then [n]
      else [0xD800 + (n - 0x1_0000) / 0x400, 0xDC00 + (n - 0x1_0000) % 0x400]
  }

  /** What the first byte or unit says of how many there are. */
  function LenByFirst(enc: Encoding, first: int): nat {
    match enc
    case Utf8 => if first < 0x80 then 1 else if first < 0xE0 then 2 else if first < 0xF0 then 3 else 4
    case Utf16 => if 0xD800 <= first < 0xDC00 then 2 else 1
  }

  /** The number of the character, computed from the digits in its bytes or units. */
  function Decoded(enc: Encoding, units: seq<int>): int
    requires units != [] && |units| == LenByFirst(enc, units[0])
  {
    match enc
    case Utf8 =>
      if |units| == 1 then units[0]
      else if |units| == 2 then (units[0] - 0xC0) * 0x40 + (units[1] - 0x80)
      else if |units| == 3 then (units[0] - 0xE0) * 0x1000 + (units[1] - 0x80) * 0x40 + (units[2] - 0x80)
      else (units[0] - 0xF0) * 0x4_0000 + (units[1] - 0x80) * 0x1000 + (units[2] - 0x80) * 0x40 + (units[3] - 0x80)
    case Utf16 =>
      if |units| == 1 then units[0] else 0x1_0000 + (units[0] - 0xD800) * 0x400 + (units[1] - 0xDC00)
  }

  /** Bytes are below 256 and units below 65536, and those behind the first one are recognised as such. */
  ghost predicate WellFormed(enc: Encoding, units: seq<int>) {
    && units != [] && |units| == LenByFirst(enc, units[0])
    && (forall i :: 0 <= i < |units| ==> 0 <= units[i] < if enc == Utf8 then 0x100 else 0x1_0000)
    && (forall i :: 0 < i < |units| ==> if enc == Utf8 then 0x80 <= units[i] < 0xC0 else 0xDC00 <= units[i] < 0xE000)
  }

  lemma Digits(n: nat)
    ensures n == n / 0x40 * 0x40 + n % 0x40
    ensures n / 0x1000 * 0x40 + n / 0x40 % 0x40 == n / 0x40
    ensures n / 0x4_0000 * 0x40 + n / 0x1000 % 0x40 == n / 0x1000
  {
  }

  lemma Utf8IsDecoded(c: char)
    ensures var units := Encoded(Utf8, c);
            |units| == Len(Utf8, c) && WellFormed(Utf8, units) && Decoded(Utf8, units) == c as int
  {
    Digits(c as int);
  }

  lemma Utf16IsDecoded(c: char)
    ensures var units := Encoded(Utf16, c);
            |units| == Len(Utf16, c) && WellFormed(Utf16, units) && Decoded(Utf16, units) == c as int
  {
  }

  /** A character is as long as its encoding, which the decoding of either RFC reads back. */
  lemma LenIsOfEncoding(enc: Encoding, c: char)
    ensures var units := Encoded(enc, c);
            |units| == Len(enc, c) && WellFormed(enc, units) && Decoded(enc, units) == c as int
  {
    match enc
    case Utf8 => Utf8IsDecoded(c);
    case Utf16 => Utf16IsDecoded(c);
  }

  function Width(enc: Encoding, s: string): nat {
    if s == [] then 0 else Len(enc, s[0]) + Width(enc, s[1..])
  }

  /** The offset of the `k`-th character. */
  function OffsetAt(enc: Encoding, s: string, k: nat): nat
    requires k <= |s|
  {
    Width(enc, s[..k])
  }

  /** `offset` falls between two characters, or at either end. */
  ghost predicate IsBoundary(enc: Encoding, s: string, offset: nat) {
    exists k: nat :: k <= |s| && OffsetAt(enc, s, k) == offset
  }

  lemma {:induction false} WidthConcat(enc: Encoding, s: string, t: string)
    ensures Width(enc, s + t) == Width(enc, s) + Width(enc, t)
  {
    if s == [] {
      assert s + t == t;
    } else {
      assert (s + t)[1..] == s[1..] + t;
      WidthConcat(enc, s[1..], t);
    }
  }

  lemma OffsetStep(enc: Encoding, s: string, k: nat)
    requires k < |s|
    ensures OffsetAt(enc, s, k + 1) == OffsetAt(enc, s, k) + Len(enc, s[k])
  {
    assert s[..k + 1] == s[..k] + [s[k]];
    WidthConcat(enc, s[..k], [s[k]]);
  }

  lemma {:induction false} OffsetsRise(enc: Encoding, s: string, j: nat, k: nat)
    requires j < k <= |s|
    ensures OffsetAt(enc, s, j) < OffsetAt(enc, s, k)
    decreases k
  {
    OffsetStep(enc, s, k - 1);
    if j < k - 1 {
      OffsetsRise(enc, s, j, k - 1);
    }
  }

  lemma OffsetAtEnd(enc: Encoding, s: string)
    ensures OffsetAt(enc, s, |s|) == Width(enc, s) && OffsetAt(enc, s, 0) == 0
  {
    assert s[..|s|] == s;
  }

  /** `k` is the first character at or after `offset`, or the end. */
  ghost predicate FirstAtOrAfter(enc: Encoding, s: string, offset: nat, k: nat) {
    && k <= |s|
    && (forall j: nat :: j < k ==> OffsetAt(enc, s, j) < offset)
    && (k < |s| ==> offset <= OffsetAt(enc, s, k))
  }

  /** How many characters lie before `offset`, a partly covered one included. */
  function CharsBefore(enc: Encoding, s: string, offset: nat): (k: nat)
    ensures k <= |s|
  {
    if s == [] || offset == 0 then 0
    else 1 + CharsBefore(enc, s[1..], if Len(enc, s[0]) <= offset then offset - Len(enc, s[0]) else 0)
  }

  lemma {:induction false} CharsBeforeIsFirst(enc: Encoding, s: string, offset: nat)
    ensures FirstAtOrAfter(enc, s, offset, CharsBefore(enc, s, offset))
  {
    var k := CharsBefore(enc, s, offset);
    if s != [] && offset > 0 {
      var rest := if Len(enc, s[0]) <= offset then offset - Len(enc, s[0]) else 0;
      CharsBeforeIsFirst(enc, s[1..], rest);
      forall j: nat | j <= |s[1..]| ensures OffsetAt(enc, s, j + 1) == Len(enc, s[0]) + OffsetAt(enc, s[1..], j) {
        assert s[..j + 1] == [s[0]] + s[1..][..j];
      }
      forall j: nat | j < k ensures OffsetAt(enc, s, j) < offset {
        if j > 0 {
          assert OffsetAt(enc, s, (j - 1) + 1) == Len(enc, s[0]) + OffsetAt(enc, s[1..], j - 1);
          assert OffsetAt(enc, s[1..], j - 1) < rest;
        }
      }
      assert k < |s| ==> OffsetAt(enc, s, (k - 1) + 1) == Len(enc, s[0]) + OffsetAt(enc, s[1..], k - 1);
    }
  }

  lemma FirstIsUnique(enc: Encoding, s: string, offset: nat, k: nat, l: nat)
    requires FirstAtOrAfter(enc, s, offset, k) && FirstAtOrAfter(enc, s, offset, l)
    ensures k == l
  {
  }

  /** The conversion in either direction. */
  function Convert(from: Encoding, to: Encoding, s: string, offset: nat): nat {
    OffsetAt(to, s, CharsBefore(from, s, offset))
  }

  /** A boundary goes to the same boundary counted the other way. */
  lemma ConvertBoundary(from: Encoding, to: Encoding, s: string, k: nat)
    requires k <= |s|
    ensures CharsBefore(from, s, OffsetAt(from, s, k)) == k
    ensures Convert(from, to, s, OffsetAt(from, s, k)) == OffsetAt(to, s, k)
  {
    var offset := OffsetAt(from, s, k);
    CharsBeforeIsFirst(from, s, offset);
    forall j: nat | j < k ensures OffsetAt(from, s, j) < offset {
      OffsetsRise(from, s, j, k);
    }
    FirstIsUnique(from, s, offset, k, CharsBefore(from, s, offset));
  }

  lemma ConvertMonotone(from: Encoding, to: Encoding, s: string, a: nat, b: nat)
    requires a <= b
    ensures Convert(from, to, s, a) <= Convert(from, to, s, b)
  {
    CharsBeforeIsFirst(from, s, a);
    CharsBeforeIsFirst(from, s, b);
    var i, j := CharsBefore(from, s, a), CharsBefore(from, s, b);
    if i < j {
      OffsetsRise(to, s, i, j);
    }
  }

  /** The first boundary at or after `offset`, or the end, is the least such boundary. */
  lemma FirstIsLeast(enc: Encoding, s: string, offset: nat, k: nat, b: nat)
    requires FirstAtOrAfter(enc, s, offset, k)
    requires IsBoundary(enc, s, b) && offset <= b
    ensures OffsetAt(enc, s, k) <= b
  {
    var l: nat :| l <= |s| && OffsetAt(enc, s, l) == b;
    if k < l {
      OffsetsRise(enc, s, k, l);
    }
  }

  /** There and back rounds an offset up to the next boundary, at most to the end. */
  lemma ThereAndBack(from: Encoding, to: Encoding, s: string, offset: nat)
    ensures var back := Convert(to, from, s, Convert(from, to, s, offset));
            && IsBoundary(from, s, back)
            && (if offset <= Width(from, s) then offset <= back else back == Width(from, s))
            && forall b: nat :: IsBoundary(from, s, b) && offset <= b ==> back <= b
  {
    var k := CharsBefore(from, s, offset);
    CharsBeforeIsFirst(from, s, offset);
    ConvertBoundary(to, from, s, k);
    OffsetAtEnd(from, s);
    if k < |s| {
      OffsetsRise(from, s, k, |s|);
    }
    forall b: nat | IsBoundary(from, s, b) && offset <= b ensures OffsetAt(from, s, k) <= b {
      FirstIsLeast(from, s, offset, k, b);
    }
  }

  /** On boundaries the two conversions are inverses, and both give boundaries. */
  lemma RoundTrip(from: Encoding, to: Encoding, s: string, offset: nat)
    requires IsBoundary(from, s, offset)
    ensures Convert(to, from, s, Convert(from, to, s, offset)) == offset
    ensures IsBoundary(to, s, Convert(from, to, s, offset))
  {
    var k: nat :| k <= |s| && OffsetAt(from, s, k) == offset;
    ConvertBoundary(from, to, s, k);
    ConvertBoundary(to, from, s, k);
  }

  /** The loop of both conversions: counts characters one way until the offset is reached, the other way beside it. */
  method CountTo(from: Encoding, to: Encoding, s: string, offset: nat) returns (converted: nat)
    ensures converted == Convert(from, to, s, offset)
  {
    converted := 0;
    var count := 0;
    var i := 0;
    while i < |s| && count < offset
      invariant 0 <= i <= |s|
      invariant count == OffsetAt(from, s, i) && converted == OffsetAt(to, s, i)
      invariant forall j: nat :: j < i ==> OffsetAt(from, s, j) < offset
    {
      OffsetStep(from, s, i);
      OffsetStep(to, s, i);
      count := count + Len(from, s[i]);
      converted := converted + Len(to, s[i]);
      i := i + 1;
    }
    CharsBeforeIsFirst(from, s, offset);
    FirstIsUnique(from, s, offset, i, CharsBefore(from, s, offset));
  }
}
