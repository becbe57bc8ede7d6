/**
 * Well-formed UTF-8, as defined by the grammar in section 4 of RFC 3629.
 * `OsStr::to_str` succeeds exactly on byte strings of this form.
 */
module Utf8 {
  import opened Base

  predicate IsTail(b: byte) { 0x80 <= b <= 0xBF }

  /**
   * The length of the well-formed character that starts `s`,
   * or 0 when `s` does not start with one.
   */
  function LeadLength(s: seq<byte>): (n: nat)
    ensures n <= |s| && n <= 4
  {
    if s == [] then 0
    else if s[0] <= 0x7F then 1
    else if 0xC2 <= s[0] <= 0xDF then
      if |s| >= 2 && IsTail(s[1]) then 2 else 0
    else if 0xE0 <= s[0] <= 0xEF then
      var lo: byte := if s[0] == 0xE0 then 0xA0 else 0x80;
      var hi: byte := if s[0] == 0xED then 0x9F else 0xBF;
      if |s| >= 3 && lo <= s[1] <= hi && IsTail(s[2]) then 3 else 0
    else if 0xF0 <= s[0] <= 0xF4 then
      var lo: byte := if s[0] == 0xF0 then 0x90 else 0x80;
      var hi: byte := if s[0] == 0xF4 then 0x8F else 0xBF;
      if |s| >= 4 && lo <= s[1] <= hi && IsTail(s[2]) && IsTail(s[3]) then 4 else 0
    else 0
  }

  /** `s` is a sequence of well-formed UTF-8 characters. */
  predicate Valid(s: seq<byte>)
    decreases |s|
  {
    s == [] || (LeadLength(s) > 0 && Valid(s[LeadLength(s)..]))
  }

  /** Every ASCII byte string is well-formed UTF-8. */
  lemma {:induction false} AsciiIsValid(s: seq<byte>)
    requires forall i :: 0 <= i < |s| ==> s[i] <= 0x7F
    ensures Valid(s)
  {
    if s != [] {
      assert LeadLength(s) == 1;
      AsciiIsValid(s[1..]);
    }
  }

  /** A byte that no well-formed character may start with makes the string ill-formed. */
  lemma BadLeadIsInvalid(s: seq<byte>)
    requires s != [] && (0x80 <= s[0] <= 0xC1 || s[0] >= 0xF5)
    ensures !Valid(s)
  {
  }
}
