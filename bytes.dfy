/**
 * Bytes as Rust's standard library sees them: ASCII case folding
 * (`u8::to_ascii_lowercase`, `eq_ignore_ascii_case`) and the UTF-8 validity
 * check behind `OsStr::to_str` and `String::from_utf8`.
 */
module Bytes {

  newtype byte = b: int | 0 <= b < 256

  const Newline: byte := 0x0A
  const CarriageReturn: byte := 0x0D
  const Dot: byte := 0x2E
  const Slash: byte := 0x2F

  predicate IsAsciiSeq(s: seq<byte>) {
    forall i :: 0 <= i < |s| ==> s[i] < 0x80
  }

  /**
   * The bytes of a string literal written in ASCII: each ASCII character
   * becomes its code. (A character outside ASCII has no one-byte code; it
   * keeps only its low seven bits here, and no literal of this model has one.)
   */
  function Ascii(s: string): (r: seq<byte>)
    ensures |r| == |s| && IsAsciiSeq(r)
    ensures forall i :: 0 <= i < |s| && s[i] as int < 0x80 ==> r[i] as int == s[i] as int
  {
    seq(|s|, i requires 0 <= i < |s| => (s[i] as int % 0x80) as byte)
  }

  /** `u8::to_ascii_lowercase`: only 'A'..'Z' change. */
  function AsciiLower(b: byte): byte {
    if 0x41 <= b <= 0x5A then b + 0x20 else b
  }

  /** `[u8]::eq_ignore_ascii_case`, which `str::eq_ignore_ascii_case` uses on the bytes. */
  predicate EqIgnoreAsciiCase(a: seq<byte>, b: seq<byte>) {
    |a| == |b| && forall i :: 0 <= i < |a| ==> AsciiLower(a[i]) == AsciiLower(b[i])
  }

  /** Anything equal, up to ASCII case, to an ASCII text is itself ASCII. */
  lemma {:induction false} EqIgnoreAsciiCaseKeepsAscii(a: seq<byte>, t: seq<byte>)
    requires IsAsciiSeq(t) && EqIgnoreAsciiCase(a, t)
    ensures IsAsciiSeq(a)
  {
    forall i | 0 <= i < |a| ensures a[i] < 0x80 {
      assert AsciiLower(a[i]) == AsciiLower(t[i]);
    }
  }

  // ---------------------------------------------------------------------
  // UTF-8 (the well-formed byte sequences of the Unicode Standard,
  // section 3.9, Table 3-7; Rust's `str::from_utf8` accepts exactly these)
  // ---------------------------------------------------------------------

  predicate IsContinuation(b: byte) {
    0x80 <= b < 0xC0
  }

  /** How many bytes a lead byte announces: 0 for a byte that cannot start a sequence. */
  function AnnouncedLength(b: byte): nat {
    if b < 0x80 then 1
    else if 0xC0 <= b < 0xE0 then 2
    else if 0xE0 <= b < 0xF0 then 3
    else if 0xF0 <= b < 0xF8 then 4
    else 0
  }

  /** The code point that the bit pattern of a lead byte and its continuation bytes spells. */
  function CodePoint(s: seq<byte>): int
    requires 1 <= |s| <= 4
  {
    if |s| == 1 then s[0] as int
    else if |s| == 2 then (s[0] as int - 0xC0) * 0x40 + (s[1] as int - 0x80)
    else if |s| == 3 then (s[0] as int - 0xE0) * 0x1000 + (s[1] as int - 0x80) * 0x40 + (s[2] as int - 0x80)
    else (s[0] as int - 0xF0) * 0x40000 + (s[1] as int - 0x80) * 0x1000 + (s[2] as int - 0x80) * 0x40 + (s[3] as int - 0x80)
  }

  /** A Unicode scalar value: a code point that is not a surrogate. */
  predicate IsScalar(cp: int) {
    (0 <= cp < 0xD800) || (0xE000 <= cp < 0x110000)
  }

  /** The length of the shortest encoding of a code point. */
  function ShortestLength(cp: int): nat {
    if cp < 0x80 then 1 else if cp < 0x800 then 2 else if cp < 0x10000 then 3 else 4
  }

  /**
   * The length of the well-formed sequence at the head of `b`, or 0 when
   * `b` does not start with one. Written as the byte ranges of Table 3-7.
   */
  function HeadSequenceLength(b: seq<byte>): (n: nat)
    requires b != []
    ensures n <= |b| && n <= 4
    ensures n == 1 <==> b[0] < 0x80
    ensures n > 1 ==>
      && AnnouncedLength(b[0]) == n
      && (forall i :: 1 <= i < n ==> IsContinuation(b[i]))
      && IsScalar(CodePoint(b[..n]))
      && ShortestLength(CodePoint(b[..n])) == n
    ensures n == 0 ==> forall k :: 2 <= k <= |b| && k == AnnouncedLength(b[0])
                                 && (forall i :: 1 <= i < k ==> IsContinuation(b[i]))
                                 ==> !IsScalar(CodePoint(b[..k])) || ShortestLength(CodePoint(b[..k])) != k
  {
    var b0 := b[0];
    if b0 < 0x80 then 1
    else if 0xC2 <= b0 <= 0xDF then
      if |b| >= 2 && IsContinuation(b[1]) then 2 else 0
    else if b0 == 0xE0 then
      if |b| >= 3 && 0xA0 <= b[1] <= 0xBF && IsContinuation(b[2]) then 3 else 0
    else if (0xE1 <= b0 <= 0xEC) || (0xEE <= b0 <= 0xEF) then
      if |b| >= 3 && IsContinuation(b[1]) && IsContinuation(b[2]) then 3 else 0
    else if b0 == 0xED then
      if |b| >= 3 && 0x80 <= b[1] <= 0x9F && IsContinuation(b[2]) then 3 else 0
    else if b0 == 0xF0 then
      if |b| >= 4 && 0x90 <= b[1] <= 0xBF && IsContinuation(b[2]) && IsContinuation(b[3]) then 4 else 0
    else if 0xF1 <= b0 <= 0xF3 then
      if |b| >= 4 && IsContinuation(b[1]) && IsContinuation(b[2]) && IsContinuation(b[3]) then 4 else 0
    else if b0 == 0xF4 then
      if |b| >= 4 && 0x80 <= b[1] <= 0x8F && IsContinuation(b[2]) && IsContinuation(b[3]) then 4 else 0
    else 0
  }

  /** `str::from_utf8(b).is_ok()`: `b` is a concatenation of well-formed sequences. */
  predicate ValidUtf8(b: seq<byte>)
    decreases |b|
  {
    b == [] || (HeadSequenceLength(b) > 0 && ValidUtf8(b[HeadSequenceLength(b)..]))
  }

  /** ASCII text is valid UTF-8. */
  lemma {:induction false} AsciiIsValidUtf8(b: seq<byte>)
    requires IsAsciiSeq(b)
    ensures ValidUtf8(b)
  {
    if b != [] {
      assert HeadSequenceLength(b) == 1;
      assert IsAsciiSeq(b[1..]);
      AsciiIsValidUtf8(b[1..]);
    }
  }

  /** A character missing from a text leaves its byte missing from the bytes. */
  lemma {:induction false} AsciiWithout(s: string, c: char, b: byte)
    requires forall i :: 0 <= i < |s| ==> s[i] as int < 0x80
    requires c as int == b as int && c !in s
    ensures b !in Ascii(s)
  {
    var r := Ascii(s);
    forall i | 0 <= i < |r| ensures r[i] != b {
      assert s[i] != c;
    }
  }

  /** The bytes of joined ASCII texts are the joined bytes. */
  lemma {:induction false} AsciiConcat(a: string, b: string)
    requires forall i :: 0 <= i < |a| ==> a[i] as int < 0x80
    requires forall i :: 0 <= i < |b| ==> b[i] as int < 0x80
    ensures Ascii(a + b) == Ascii(a) + Ascii(b)
  {
    var ab := a + b;
    assert forall i :: 0 <= i < |ab| ==> ab[i] as int < 0x80 by {
      forall i | 0 <= i < |ab| ensures ab[i] as int < 0x80 {
        if i >= |a| { assert ab[i] == b[i - |a|]; }
      }
    }
    var l, r := Ascii(ab), Ascii(a) + Ascii(b);
    forall i | 0 <= i < |l| ensures l[i] == r[i] {
      if i >= |a| { assert ab[i] == b[i - |a|]; }
    }
  }
}
