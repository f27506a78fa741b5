/**
 * Bytes and UTF-8 well-formedness, as `str::from_utf8` and `env::var` of the
 * Rust standard library decide it, and the char-boundary rule that governs
 * slicing a `&str`.
 */
module Utf8 {

  newtype Byte = b: int | 0 <= b < 0x100
  type Bytes = seq<Byte>

  /** A byte of the form 10xxxxxx, which never starts a character. */
  predicate IsContinuation(b: Byte) {
    0x80 <= b < 0xC0
  }

  /**
   * The width of a character from its first byte (Rust's `utf8_char_width`),
   * or 0 for a byte that never starts a well-formed character.
   */
  function CharWidth(b: Byte): (w: nat)
    ensures w <= 4
    ensures w == 1 <==> b < 0x80
    ensures w > 0 ==> !IsContinuation(b)
  {
    if b < 0x80 then 1
    else if 0xC2 <= b <= 0xDF then 2
    else if 0xE0 <= b <= 0xEF then 3
    else if 0xF0 <= b <= 0xF4 then 4
    else 0
  }

  /**
   * The range the second byte must lie in after the first byte `b0`, which
   * rules out overlong forms, surrogates and code points above U+10FFFF
   * (the table of well-formed byte sequences in section 3.9 of the Unicode
   * Standard).
   */
  predicate SecondByteOk(b0: Byte, b1: Byte) {
    if b0 == 0xE0 then 0xA0 <= b1 <= 0xBF
    else if b0 == 0xED then 0x80 <= b1 <= 0x9F
    else if b0 == 0xF0 then 0x90 <= b1 <= 0xBF
    else if b0 == 0xF4 then 0x80 <= b1 <= 0x8F
    else IsContinuation(b1)
  }

  /**
   * The length of the well-formed character that starts `s`, or 0 when `s`
   * does not start with one.
   */
  function LeadingCharLength(s: Bytes): (n: nat)
    ensures n <= 4 && n <= |s|
    ensures n == 1 <==> |s| > 0 && s[0] < 0x80
    ensures n > 0 ==> !IsContinuation(s[0])
    ensures forall k :: 1 <= k < n ==> IsContinuation(s[k])
  {
    if |s| == 0 then 0
    else
      var w := CharWidth(s[0]);
      if w <= 1 then w
      else if |s| < w || !SecondByteOk(s[0], s[1]) then 0
      else if (w <= 2 || IsContinuation(s[2])) && (w <= 3 || IsContinuation(s[3])) then w
      else 0
  }

  /**
   * `s` is a sequence of well-formed UTF-8 characters. Such a sequence
   * does not start inside a character, and its last byte is ASCII or a
   * continuation byte, never a lead byte.
   */
  predicate ValidUtf8(s: Bytes): (b: bool)
    ensures b && |s| > 0 ==> !IsContinuation(s[0])
    ensures b && |s| > 0 ==> s[|s| - 1] < 0x80 || IsContinuation(s[|s| - 1])
    decreases |s|
  {
    |s| == 0 || (LeadingCharLength(s) > 0 && ValidUtf8(s[LeadingCharLength(s)..]))
  }

  /** Rust's `str::is_char_boundary(i)` on the bytes of a `&str`. */
  predicate IsCharBoundary(s: Bytes, i: nat) {
    i == 0 || i == |s| || (i < |s| && !IsContinuation(s[i]))
  }

  /** `&s[1..]` does not panic: index 1 is in range and on a char boundary. */
  predicate CanSliceFromOne(s: Bytes) {
    1 <= |s| && IsCharBoundary(s, 1)
  }

  /** Every ASCII-only byte sequence is valid UTF-8. */
  lemma {:induction false} AsciiIsValid(s: Bytes)
    requires forall i :: 0 <= i < |s| ==> s[i] < 0x80
    ensures ValidUtf8(s)
  {
    if |s| > 0 {
      AsciiIsValid(s[1..]);
    }
  }

  /** Prefixing one ASCII byte keeps validity and leaves a char boundary at index 1. */
  lemma FirstAsciiByte(c: Byte, rest: Bytes)
    requires c < 0x80
    ensures ValidUtf8([c] + rest) <==> ValidUtf8(rest)
    ensures ValidUtf8([c] + rest) ==> CanSliceFromOne([c] + rest)
    ensures ([c] + rest)[1..] == rest
  {
    assert LeadingCharLength([c] + rest) == 1;
    assert ([c] + rest)[1..] == rest;
    if ValidUtf8(rest) && |rest| > 0 {
      assert !IsContinuation(rest[0]);
    }
  }

  /** A well-formed leading character does not change when bytes are appended. */
  lemma LeadingCharLengthOfConcat(a: Bytes, b: Bytes)
    requires LeadingCharLength(a) > 0
    ensures LeadingCharLength(a + b) == LeadingCharLength(a)
  {
    var n := LeadingCharLength(a);
    assert forall k :: 0 <= k < n ==> (a + b)[k] == a[k];
  }

  /** Valid UTF-8 is closed under concatenation. */
  lemma {:induction false} ConcatIsValid(a: Bytes, b: Bytes)
    requires ValidUtf8(a) && ValidUtf8(b)
    ensures ValidUtf8(a + b)
  {
    if |a| == 0 {
      assert a + b == b;
    } else {
      var n := LeadingCharLength(a);
      LeadingCharLengthOfConcat(a, b);
      assert (a + b)[n..] == a[n..] + b;
      ConcatIsValid(a[n..], b);
      assert LeadingCharLength(a + b) > 0 && ValidUtf8((a + b)[LeadingCharLength(a + b)..]);
    }
  }

  /**
   * On valid UTF-8, `&s[1..]` is safe exactly when the first character is a
   * single (ASCII) byte; the remainder is then valid UTF-8 as well.
   */
  lemma SliceFromOneIffAsciiHead(s: Bytes)
    requires ValidUtf8(s) && |s| > 0
    ensures CanSliceFromOne(s) <==> s[0] < 0x80
    ensures s[0] < 0x80 ==> ValidUtf8(s[1..])
  {
    if s[0] < 0x80 && |s| > 1 {
      assert ValidUtf8(s[1..]);
      assert LeadingCharLength(s[1..]) > 0;
      assert s[1..][0] == s[1];
    }
  }
}
