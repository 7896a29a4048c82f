/** `String::from_utf8` succeeds exactly on well-formed UTF-8: the byte
    sequences of Table 3-7 in section 3.9 of the Unicode Standard, which
    rule out overlong forms, surrogates and code points past U+10FFFF. */
module Utf8 {
  import opened Bytes

  predicate Continuation(b: byte) {
    0x80 <= b <= 0xBF
  }

  /** The length of the well-formed character at the front of `s`, or 0 when
      `s` does not start with one. */
  function CharLength(s: Bytes): (n: nat)
    requires |s| > 0
    ensures n <= 4 && n <= |s|
  {
    var b := s[0];
    if b <= 0x7F then 1
    else if 0xC2 <= b <= 0xDF then
      if |s| >= 2 && Continuation(s[1]) then 2 else 0
    else if b == 0xE0 then
      if |s| >= 3 && 0xA0 <= s[1] <= 0xBF && Continuation(s[2]) then 3 else 0
    else if (0xE1 <= b <= 0xEC) || (0xEE <= b <= 0xEF) then
      if |s| >= 3 && Continuation(s[1]) && Continuation(s[2]) then 3 else 0
    else if b == 0xED then
      if |s| >= 3 && 0x80 <= s[1] <= 0x9F && Continuation(s[2]) then 3 else 0
    else if b == 0xF0 then
      if |s| >= 4 && 0x90 <= s[1] <= 0xBF && Continuation(s[2]) && Continuation(s[3]) then 4 else 0
    else if 0xF1 <= b <= 0xF3 then
      if |s| >= 4 && Continuation(s[1]) && Continuation(s[2]) && Continuation(s[3]) then 4 else 0
    else if b == 0xF4 then
      if |s| >= 4 && 0x80 <= s[1] <= 0x8F && Continuation(s[2]) && Continuation(s[3]) then 4 else 0
    else 0
  }

  predicate ValidUtf8(s: Bytes)
    decreases |s|
  {
    |s| == 0 || (CharLength(s) > 0 && ValidUtf8(s[CharLength(s)..]))
  }

  /** The length of a character depends only on its own bytes. */
  lemma CharLengthPrefix(s: Bytes, t: Bytes)
    requires |s| > 0 && CharLength(s) > 0
    ensures CharLength(s + t) == CharLength(s)
  {
    assert forall i :: 0 <= i < |s| ==> (s + t)[i] == s[i];
  }

  /** Two well-formed texts joined are well formed. */
  lemma {:induction false} ValidConcat(s: Bytes, t: Bytes)
    requires ValidUtf8(s) && ValidUtf8(t)
    ensures ValidUtf8(s + t)
    decreases |s|
  {
    if |s| == 0 {
      assert s + t == t;
    } else {
      ValidConcat(s[CharLength(s)..], t);
      ConcatStep(s, t);
    }
  }

  /** The first character of `s` stays the first character of `s + t`. */
  lemma ConcatStep(s: Bytes, t: Bytes)
    requires |s| > 0 && CharLength(s) > 0 && ValidUtf8(s[CharLength(s)..] + t)
    ensures ValidUtf8(s + t)
  {
    var n := CharLength(s);
    CharLengthPrefix(s, t);
    assert (s + t)[n..] == s[n..] + t;
  }

  /** ASCII text is well formed. */
  lemma {:induction false} AsciiValid(s: Bytes)
    requires IsAscii(s)
    ensures ValidUtf8(s)
    decreases |s|
  {
    if |s| > 0 {
      AsciiValid(s[1..]);
    }
  }

  /** The bytes C0, C1 and F5 to FF occur nowhere in well-formed UTF-8. */
  lemma {:induction false} NeverOccurring(s: Bytes, i: nat)
    requires ValidUtf8(s) && i < |s|
    ensures s[i] != 0xC0 && s[i] != 0xC1 && s[i] < 0xF5
    decreases |s|
  {
    var n := CharLength(s);
    if i >= n {
      NeverOccurring(s[n..], i - n);
      assert s[n..][i - n] == s[i];
    }
  }
}
