/**
  Bytes and UTF-8 text.

  The parser works on `&[u8]` and every Rust `String` it builds is UTF-8, so the model keeps text
  as byte sequences and states validity with the well-formed byte sequences of the Unicode
  Standard (Table 3-7 of chapter 3). `Lossy` is `OsStr::to_string_lossy` on Unix, where an
  `OsString` is an arbitrary byte sequence.
*/
module Utf8 {

  type Byte = b: int | 0 <= b < 256

  type Bytes = seq<Byte>

  predicate IsAscii(b: Byte) {
    b < 0x80
  }

  predicate IsContinuation(b: Byte) {
    0x80 <= b <= 0xBF
  }

  predicate AllAscii(s: Bytes) {
    forall i :: 0 <= i < |s| ==> IsAscii(s[i])
  }

  /** Number of bytes in the sequence a lead byte announces; 0 when `b` cannot lead one. */
  function SequenceLength(b: Byte): nat {
    if b <= 0x7F then 1
    else if 0xC2 <= b <= 0xDF then 2
    else if 0xE0 <= b <= 0xEF then 3
    else if 0xF0 <= b <= 0xF4 then 4
    else 0
  }

  /** The range allowed for the second byte after lead byte `b`: narrower after E0, ED, F0 and F4. */
  function SecondLow(b: Byte): Byte {
    if b == 0xE0 then 0xA0 else if b == 0xF0 then 0x90 else 0x80
  }

  function SecondHigh(b: Byte): Byte {
    if b == 0xED then 0x9F else if b == 0xF4 then 0x8F else 0xBF
  }

  /**
    How many leading bytes of `s` agree with a well-formed sequence, at most the length its lead
    byte announces. When that is less than the announced length, it is the "maximal subpart" of an
    ill-formed sequence that a lossy decoder replaces with one U+FFFD.
  */
  function MatchLength(s: Bytes): (n: nat)
    requires |s| > 0
    ensures n <= SequenceLength(s[0]) && n <= |s|
    ensures n > 0 ==> !IsContinuation(s[0])
    ensures forall i :: 1 <= i < n ==> IsContinuation(s[i])
  {
    var len := SequenceLength(s[0]);
    if len == 0 then 0
    else if len == 1 || |s| < 2 || !(SecondLow(s[0]) <= s[1] <= SecondHigh(s[0])) then 1
    else if len == 2 || |s| < 3 || !IsContinuation(s[2]) then 2
    else if len == 3 || |s| < 4 || !IsContinuation(s[3]) then 3
    else 4
  }

  /** Length of the well-formed code point that starts `s`; 0 when `s` does not start with one. */
  function CharLength(s: Bytes): (n: nat)
    ensures n <= 4 && n <= |s|
    ensures n > 0 ==> !IsContinuation(s[0])
    ensures forall i :: 1 <= i < n ==> IsContinuation(s[i])
    ensures |s| > 0 && IsAscii(s[0]) ==> n == 1
  {
    if |s| == 0 then 0
    else if MatchLength(s) == SequenceLength(s[0]) then MatchLength(s)
    else 0
  }

  /** `s` is a concatenation of well-formed code points. */
  predicate Valid(s: Bytes)
    decreases |s|
  {
    |s| == 0 || (CharLength(s) > 0 && Valid(s[CharLength(s)..]))
  }

  /** U+FFFD REPLACEMENT CHARACTER, encoded. */
  const Replacement: Bytes := [0xEF, 0xBF, 0xBD]

  /** The code point length only depends on the bytes it covers. */
  lemma CharLengthOfSamePrefix(s: Bytes, t: Bytes)
    requires CharLength(s) > 0 && CharLength(s) <= |t|
    requires t[..CharLength(s)] == s[..CharLength(s)]
    ensures CharLength(t) == CharLength(s)
  {
    var k := CharLength(s);
    assert forall i :: 0 <= i < k ==> t[i] == s[i] by {
      forall i | 0 <= i < k ensures t[i] == s[i] {
        assert t[..k][i] == s[..k][i];
      }
    }
  }

  /** One well-formed code point is valid text. */
  lemma ValidFirstChar(s: Bytes)
    requires CharLength(s) > 0
    ensures Valid(s[..CharLength(s)])
  {
    var k := CharLength(s);
    CharLengthOfSamePrefix(s, s[..k]);
    assert s[..k][k..] == [];
  }

  /** Valid text is closed under concatenation. */
  lemma {:induction false} ValidConcat(a: Bytes, b: Bytes)
    requires Valid(a) && Valid(b)
    ensures Valid(a + b)
    decreases |a|
  {
    if |a| == 0 {
      assert a + b == b;
    } else {
      var k := CharLength(a);
      var s := a + b;
      assert k > 0 && Valid(a[k..]);
      assert s[..k] == a[..k];
      CharLengthOfSamePrefix(a, s);
      assert s[k..] == a[k..] + b;
      ValidConcat(a[k..], b);
    }
  }

  /**
    Cutting valid text just before a byte that is not a continuation byte (in particular before
    an ASCII byte) leaves two valid halves: such a byte never sits inside a code point.
  */
  lemma {:induction false} ValidSplit(a: Bytes, b: Bytes)
    requires Valid(a + b)
    requires |b| == 0 || !IsContinuation(b[0])
    ensures Valid(a) && Valid(b)
    decreases |a|
  {
    if |a| == 0 {
      assert a + b == b;
    } else {
      var s := a + b;
      var k := CharLength(s);
      if k > |a| {
        assert false;
      }
      assert s[..k] == a[..k];
      CharLengthOfSamePrefix(s, a);
      assert s[k..] == a[k..] + b;
      ValidSplit(a[k..], b);
    }
  }

  /** An ASCII prefix neither makes nor breaks validity. */
  lemma {:induction false} ValidAsciiPrefix(a: Bytes, b: Bytes)
    requires AllAscii(a)
    ensures Valid(a + b) <==> Valid(b)
    decreases |a|
  {
    if |a| == 0 {
      assert a + b == b;
    } else {
      var s := a + b;
      assert s[0] == a[0];
      assert CharLength(s) == 1;
      assert s[1..] == a[1..] + b;
      ValidAsciiPrefix(a[1..], b);
    }
  }

  lemma AsciiIsValid(a: Bytes)
    requires AllAscii(a)
    ensures Valid(a)
  {
    ValidAsciiPrefix(a, []);
    assert a + [] == a;
  }

  /** Copying one well-formed code point in front of a lossy tail keeps both facts about `Lossy`. */
  lemma LossyCopyStep(s: Bytes, tail: Bytes)
    requires CharLength(s) > 0
    requires Valid(tail) && (tail == s[CharLength(s)..] <==> Valid(s[CharLength(s)..]))
    ensures Valid(s[..CharLength(s)] + tail)
    ensures s[..CharLength(s)] + tail == s <==> Valid(s)
  {
    var k := CharLength(s);
    ValidFirstChar(s);
    ValidConcat(s[..k], tail);
    assert s == s[..k] + s[k..];
    if s[..k] + tail == s {
      assert tail == s[k..];
    }
  }

  /** A replacement character in front of a lossy tail is valid and differs from ill-formed input. */
  lemma LossyReplaceStep(s: Bytes, tail: Bytes)
    requires |s| > 0 && CharLength(s) == 0
    requires Valid(tail)
    ensures Valid(Replacement + tail)
    ensures Replacement + tail != s && !Valid(s)
  {
    assert CharLength(Replacement) == 3;
    assert Replacement[3..] == [];
    ValidConcat(Replacement, tail);
  }

  /**
    `to_string_lossy`: valid code points are copied, and each maximal subpart of an ill-formed
    sequence (at least one byte) becomes one U+FFFD.
  */
  function Lossy(s: Bytes): (r: Bytes)
    ensures Valid(r)
    ensures r == s <==> Valid(s)
    decreases |s|
  {
    if |s| == 0 then []
    else if CharLength(s) > 0 then
      var tail := Lossy(s[CharLength(s)..]);
      LossyCopyStep(s, tail);
      s[..CharLength(s)] + tail
    else
      var tail := Lossy(s[if MatchLength(s) == 0 then 1 else MatchLength(s)..]);
      LossyReplaceStep(s, tail);
      Replacement + tail
  }

  /** A lead byte and continuation bytes in the ranges Table 3-7 allows form one code point. */
  lemma WellFormedSequence(r: Bytes)
    requires 2 <= |r| <= 4 && SequenceLength(r[0]) == |r|
    requires SecondLow(r[0]) <= r[1] <= SecondHigh(r[0])
    requires forall i :: 2 <= i < |r| ==> IsContinuation(r[i])
    ensures CharLength(r) == |r| && Valid(r)
  {
    assert r[|r|..] == [];
  }

  /** UTF-8 encoding of one Unicode scalar value (what `char::into::<String>` produces). */
  function EncodeChar(c: char): (r: Bytes)
    ensures 1 <= |r| <= 4
    ensures CharLength(r) == |r|
    ensures Valid(r)
    ensures c as int < 0x80 ==> r == [c as int]
  {
    var n := c as int;
    if n < 0x80 then
      var r: Bytes := [n];
      assert r[1..] == [];
      r
    else if n < 0x800 then
      var r: Bytes := [0xC0 + n / 0x40, 0x80 + n % 0x40];
      WellFormedSequence(r);
      r
    else if n < 0x1_0000 then
      var r: Bytes := [0xE0 + n / 0x1000, 0x80 + (n / 0x40) % 0x40, 0x80 + n % 0x40];
      WellFormedSequence(r);
      r
    else
      var r: Bytes := [0xF0 + n / 0x4_0000, 0x80 + (n / 0x1000) % 0x40, 0x80 + (n / 0x40) % 0x40, 0x80 + n % 0x40];
      WellFormedSequence(r);
      r
  }

  /** The code point that the well-formed sequence at the head of `s` encodes. */
  function DecodeChar(s: Bytes): (cp: int)
    requires CharLength(s) > 0
  {
    var n := CharLength(s);
    var b0, b1, b2, b3 := s[0] as int, if n > 1 then s[1] as int else 0x80,
      if n > 2 then s[2] as int else 0x80, if n > 3 then s[3] as int else 0x80;
    if n == 1 then b0
    else if n == 2 then (b0 - 0xC0) * 0x40 + (b1 - 0x80)
    else if n == 3 then (b0 - 0xE0) * 0x1000 + (b1 - 0x80) * 0x40 + (b2 - 0x80)
    else (b0 - 0xF0) * 0x4_0000 + (b1 - 0x80) * 0x1000 + (b2 - 0x80) * 0x40 + (b3 - 0x80)
  }

  lemma Digits64(n: nat)
    ensures n == (n / 0x40) * 0x40 + n % 0x40
    ensures n / 0x40 == ((n / 0x40) / 0x40) * 0x40 + (n / 0x40) % 0x40
    ensures n / 0x1000 == (n / 0x40) / 0x40
    ensures n / 0x4_0000 == (n / 0x1000) / 0x40
  {
  }

  /** Decoding what `EncodeChar` wrote gives the character back. */
  lemma EncodeCharRoundTrip(c: char)
    ensures DecodeChar(EncodeChar(c)) == c as int
  {
    var n := c as int;
    var r := EncodeChar(c);
    Digits64(n);
    Digits64(n / 0x40);
    if n < 0x80 {
    } else if n < 0x800 {
      assert |r| == 2;
    } else if n < 0x1_0000 {
      assert |r| == 3;
    } else {
      assert |r| == 4;
    }
  }
}
