/** National identity numbers (Utils.cs `IsValidSsn`). */
module Ssn {

  predicate IsDigit(c: char) {
    '0' <= c <= '9'
  }

  /** The character scan of `IsValidSsn`: true when no character lies outside
      '0'..'9'. */
  function AllDigits(s: string): (ok: bool)
    ensures ok <==> forall i :: 0 <= i < |s| ==> IsDigit(s[i])
  {
    if |s| == 0 then true
    else IsDigit(s[0]) && AllDigits(s[1..])
  }

  /** A well-formed national identifier: exactly eleven ASCII digits. The
      length test comes first and the character scan stops at the first
      non-digit; the function is total on every (non-null) string. */
  function IsValidSsn(s: string): (valid: bool)
    ensures valid <==> |s| == 11 && forall i :: 0 <= i < |s| ==> IsDigit(s[i])
    ensures |s| != 11 ==> !valid
    ensures (exists i :: 0 <= i < |s| && !IsDigit(s[i])) ==> !valid
  {
    if |s| != 11 then false else AllDigits(s)
  }

  /** Lengths other than eleven, the empty string included, and any
      non-digit character are rejected. */
  lemma RejectedExamples()
    ensures !IsValidSsn("")
    ensures !IsValidSsn("abc123")
    ensures !IsValidSsn("1234567890a")
  {
    assert !IsDigit("1234567890a"[10]);
  }

  /** Leading zeros are accepted: only the character class counts. */
  lemma LeadingZerosAccepted()
    ensures IsValidSsn("00000000001")
  {
    var s := "00000000001";
    assert forall i | 0 <= i < |s| :: s[i] == '0' || s[i] == '1';
  }
}
