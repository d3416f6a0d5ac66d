/**
 * UTF-8 well-formedness, as decided by Rust's `core::str::from_utf8`: a byte
 * sequence is valid when it splits into well-formed code unit sequences as
 * listed in Table 3-7 of the Unicode Standard (no overlong forms, no
 * surrogates, nothing above U+10FFFF).
 */
module Utf8 {
  import opened Primitives

  predicate IsContinuation(b: byte) {
    0x80 <= b <= 0xBF
  }

  /**
   * The length of the well-formed code unit sequence at the start of `s`,
   * or 0 when `s` does not start with one.
   */
  function LeadLength(s: seq<byte>): (n: nat)
    ensures n <= |s| && n <= 4
    ensures |s| > 0 && s[0] < 0x80 ==> n == 1
  {
    if |s| == 0 then 0
    else
      var b := s[0];
      if b <= 0x7F then 1
      else if 0xC2 <= b <= 0xDF then
        if |s| >= 2 && IsContinuation(s[1]) then 2 else 0
      else if 0xE0 <= b <= 0xEF then
        var lo: byte := if b == 0xE0 then 0xA0 else 0x80;
        var hi: byte := if b == 0xED then 0x9F else 0xBF;
        if |s| >= 3 && lo <= s[1] <= hi && IsContinuation(s[2]) then 3 else 0
      else if 0xF0 <= b <= 0xF4 then
        var lo: byte := if b == 0xF0 then 0x90 else 0x80;
        var hi: byte := if b == 0xF4 then 0x8F else 0xBF;
        if |s| >= 4 && lo <= s[1] <= hi && IsContinuation(s[2]) && IsContinuation(s[3]) then 4 else 0
      else 0
  }

  /** `s` is valid UTF-8: `from_utf8(s)` returns `Ok`. */
  predicate Valid(s: seq<byte>)
    ensures Valid(s) && |s| > 0 ==> !IsContinuation(s[0]) && (s[0] < 0x80 || 0xC2 <= s[0] <= 0xF4)
    ensures Valid(s) && |s| > 0 && s[0] >= 0x80 ==> |s| >= 2 && IsContinuation(s[1])
    decreases |s|
  {
    |s| == 0 || (LeadLength(s) > 0 && Valid(s[LeadLength(s)..]))
  }

  /** A complete code unit sequence at the front is not affected by what follows it. */
  lemma LeadLengthExtends(s: seq<byte>, t: seq<byte>)
    requires LeadLength(s) > 0
    ensures LeadLength(s + t) == LeadLength(s)
  {
    var n := LeadLength(s);
    assert forall i :: 0 <= i < n ==> (s + t)[i] == s[i];
  }

  /** Concatenating two valid strings gives a valid string (Rust's `&str` + `&str`). */
  lemma {:induction false} ConcatValid(a: seq<byte>, b: seq<byte>)
    requires Valid(a) && Valid(b)
    ensures Valid(a + b)
    decreases |a|
  {
    if a == [] {
      assert a + b == b;
    } else {
      var n := LeadLength(a);
      LeadLengthExtends(a, b);
      assert (a + b)[n..] == a[n..] + b;
      ConcatValid(a[n..], b);
    }
  }

  /** Every sequence of 7-bit bytes is valid UTF-8. */
  lemma {:induction false} AsciiValid(s: seq<byte>)
    requires forall i :: 0 <= i < |s| ==> s[i] < 0x80
    ensures Valid(s)
    decreases |s|
  {
    if s != [] {
      assert LeadLength(s) == 1;
      AsciiValid(s[1..]);
    }
  }

  /** A stray byte and an overlong encoding are rejected, so `as_str` can fall back. */
  lemma InvalidExamples()
    ensures !Valid([0xFF])
    ensures !Valid([0xC0, 0x80])
    ensures !Valid([0xED, 0xA0, 0x80])
  {
  }
}
