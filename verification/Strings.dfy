/** The ordinal string operations the source relies on: `StartsWith`,
    `Contains`, `IndexOf` and case-insensitive equality. */
module Strings {

  /** Ordinal prefix test. */
  predicate StartsWith(s: string, prefix: string) {
    |prefix| <= |s| && s[..|prefix|] == prefix
  }

  /** `sub` occurs in `s` starting at position `i`. */
  predicate OccursAt(s: string, sub: string, i: nat) {
    i + |sub| <= |s| && s[i..i + |sub|] == sub
  }

  /** Ordinal substring test, `s.Contains(sub)`. */
  function Contains(s: string, sub: string): (found: bool)
    ensures found <==> exists i: nat :: OccursAt(s, sub, i)
    decreases |s|
  {
    if StartsWith(s, sub) then
      assert OccursAt(s, sub, 0);
      true
    else if |s| == 0 then false
    else
      var rest := Contains(s[1..], sub);
      assert forall i: nat :: OccursAt(s, sub, i + 1) <==> OccursAt(s[1..], sub, i) by {
        forall i: nat ensures OccursAt(s, sub, i + 1) <==> OccursAt(s[1..], sub, i) {
          if i + 1 + |sub| <= |s| {
            var a := s[i + 1..i + 1 + |sub|];
            var b := s[1..][i..i + |sub|];
            assert |a| == |b| == |sub|;
            forall k | 0 <= k < |sub| ensures a[k] == b[k] {
              assert a[k] == s[i + 1 + k];
              assert b[k] == s[1..][i + k] == s[i + 1 + k];
            }
            assert a == b;
          }
        }
      }
      assert !OccursAt(s, sub, 0);
      assert rest ==> exists i: nat :: OccursAt(s, sub, i) by {
        if rest {
          var j: nat :| OccursAt(s[1..], sub, j);
          assert OccursAt(s, sub, j + 1);
        }
      }
      assert (exists i: nat :: OccursAt(s, sub, i)) ==> rest by {
        if exists i: nat :: OccursAt(s, sub, i) {
          var j: nat :| OccursAt(s, sub, j);
          assert j != 0;
          assert OccursAt(s[1..], sub, j - 1);
        }
      }
      rest
  }

  /** `s.IndexOf(c, from)`: the first position at or after `from` holding `c`,
      or -1 when there is none. */
  function IndexOf(s: string, c: char, from: nat): (k: int)
    requires from <= |s|
    ensures -1 <= k < |s|
    ensures k == -1 <==> forall i :: from <= i < |s| ==> s[i] != c
    ensures k != -1 ==> from <= k && s[k] == c && forall i :: from <= i < k ==> s[i] != c
    decreases |s| - from
  {
    if from == |s| then -1
    else if s[from] == c then from
    else IndexOf(s, c, from + 1)
  }

  /** `new string(c, n)`. */
  function Repeat(c: char, n: nat): (r: string)
    ensures |r| == n
    ensures forall i :: 0 <= i < n ==> r[i] == c
  {
    if n == 0 then [] else [c] + Repeat(c, n - 1)
  }

  /** Upper-casing of the ASCII letters; every other character maps to itself. */
  function AsciiUpper(c: char): char {
    if 'a' <= c <= 'z' then (c as int - 32) as char else c
  }

  /** Case-insensitive equality under ASCII case folding. */
  predicate EqualsIgnoreCase(a: string, b: string) {
    |a| == |b| && forall i :: 0 <= i < |a| ==> AsciiUpper(a[i]) == AsciiUpper(b[i])
  }
}
