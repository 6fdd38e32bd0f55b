/**
 * Well-formedness of UTF-8 byte sequences, the check behind Rust's
 * `std::str::from_utf8` and behind every `String` value: a sequence is valid
 * when it splits into the well-formed code-unit sequences of Table 3-7 of the
 * Unicode Standard (section 3.9), which excludes overlong forms, surrogates
 * and code points above U+10FFFF.
 */
module Utf8 {
  import opened Bytes

  predicate IsContinuation(b: Byte)
  {
    0x80 <= b <= 0xBF
  }

  /** Length of the well-formed sequence that starts `s`, or 0 when `s` does not start with one. */
  function LeadingLength(s: seq<Byte>): (n: nat)
    ensures n <= 4 && n <= |s|
    ensures n > 0 ==> forall i :: 1 <= i < n ==> IsContinuation(s[i])
    ensures n == 1 <==> |s| > 0 && s[0] <= 0x7F
  {
    if |s| == 0 then 0
    else
      var b := s[0];
      if b <= 0x7F then 1
      else if 0xC2 <= b <= 0xDF then
        if |s| >= 2 && IsContinuation(s[1]) then 2 else 0
      else if b == 0xE0 then
        if |s| >= 3 && 0xA0 <= s[1] <= 0xBF && IsContinuation(s[2]) then 3 else 0
      else if 0xE1 <= b <= 0xEC || 0xEE <= b <= 0xEF then
        if |s| >= 3 && IsContinuation(s[1]) && IsContinuation(s[2]) then 3 else 0
      else if b == 0xED then
        if |s| >= 3 && 0x80 <= s[1] <= 0x9F && IsContinuation(s[2]) then 3 else 0
      else if b == 0xF0 then
        if |s| >= 4 && 0x90 <= s[1] <= 0xBF && IsContinuation(s[2]) && IsContinuation(s[3]) then 4 else 0
      else if 0xF1 <= b <= 0xF3 then
        if |s| >= 4 && IsContinuation(s[1]) && IsContinuation(s[2]) && IsContinuation(s[3]) then 4 else 0
      else if b == 0xF4 then
        if |s| >= 4 && 0x80 <= s[1] <= 0x8F && IsContinuation(s[2]) && IsContinuation(s[3]) then 4 else 0
      else 0
  }

  /** `s` is a whole number of well-formed UTF-8 sequences. */
  predicate Valid(s: seq<Byte>)
    decreases |s|
  {
    |s| == 0 || (LeadingLength(s) > 0 && Valid(s[LeadingLength(s)..]))
  }

  predicate IsAscii(s: seq<Byte>)
  {
    forall i :: 0 <= i < |s| ==> s[i] <= 0x7F
  }

  /** Every ASCII byte string is valid UTF-8. */
  lemma {:induction false} AsciiIsValid(s: seq<Byte>)
    requires IsAscii(s)
    ensures Valid(s)
  {
    if |s| > 0 {
      assert LeadingLength(s) == 1;
      assert IsAscii(s[1..]) by {
        forall i | 0 <= i < |s[1..]| ensures s[1..][i] <= 0x7F {
          assert s[1..][i] == s[i + 1];
        }
      }
      AsciiIsValid(s[1..]);
    }
  }
}
