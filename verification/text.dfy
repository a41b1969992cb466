/** The few `str` operations the game relies on, restricted to ASCII: `str.lower`, `str.upper`,
    `str.isalpha`, `string.ascii_uppercase` and the substring test `a in b`. */
module Text {

  predicate IsUpperLetter(c: char) { 'A' <= c <= 'Z' }

  predicate IsLowerLetter(c: char) { 'a' <= c <= 'z' }

  predicate IsLetter(c: char) { IsUpperLetter(c) || IsLowerLetter(c) }

  /** Python's `str.isalpha`: true of a non-empty string made of letters only. */
  predicate IsAlpha(s: string)
  {
    |s| > 0 && forall i :: 0 <= i < |s| ==> IsLetter(s[i])
  }

  function LowerChar(c: char): (r: char)
    ensures IsUpperLetter(c) ==> IsLowerLetter(r) && r as int - c as int == 32
    ensures !IsUpperLetter(c) ==> r == c
  {
    if IsUpperLetter(c) then (c as int + 32) as char else c
  }

  function UpperChar(c: char): (r: char)
    ensures IsLowerLetter(c) ==> IsUpperLetter(r) && c as int - r as int == 32
    ensures !IsLowerLetter(c) ==> r == c
  {
    if IsLowerLetter(c) then (c as int - 32) as char else c
  }

  /** Python's `str.lower`, character by character. */
  function Lower(s: string): (r: string)
    ensures |r| == |s|
    ensures forall i :: 0 <= i < |s| ==> r[i] == LowerChar(s[i])
  {
    seq(|s|, i requires 0 <= i < |s| => LowerChar(s[i]))
  }

  /** Lower-casing leaves a string of lower-case letters as it is. */
  lemma LowerFixesLowerCase(s: string)
    requires forall i :: 0 <= i < |s| ==> IsLowerLetter(s[i])
    ensures Lower(s) == s && IsAlpha(s) == (|s| > 0)
  {
  }

  const AsciiUppercase: string := "ABCDEFGHIJKLMNOPQRSTUVWXYZ"

  /** Python's `a in b` on two strings: `a` occurs in `b` as a contiguous block (the empty string
      occurs in every string). */
  predicate IsSubstring(a: string, b: string)
  {
    exists i :: 0 <= i <= |b| - |a| && OccursAt(a, b, i)
  }

  /** `a` occurs in `b` starting at position `i`. */
  predicate OccursAt(a: string, b: string, i: int)
    requires 0 <= i <= |b| - |a|
  {
    b[i..i + |a|] == a
  }

  /** Every block of `string.ascii_uppercase` is made of upper-case letters, and every single
      upper-case letter is such a block. */
  lemma UppercaseBlocks(key: string)
    ensures IsSubstring(key, AsciiUppercase) ==> forall k :: 0 <= k < |key| ==> IsUpperLetter(key[k])
    ensures |key| == 1 && IsUpperLetter(key[0]) ==> IsSubstring(key, AsciiUppercase)
  {
    assert forall j :: 0 <= j < |AsciiUppercase| ==> AsciiUppercase[j] as int == 'A' as int + j;
    if IsSubstring(key, AsciiUppercase) {
      var i :| 0 <= i <= |AsciiUppercase| - |key| && OccursAt(key, AsciiUppercase, i);
      forall k | 0 <= k < |key|
        ensures IsUpperLetter(key[k])
      {
        assert key[k] == AsciiUppercase[i + k];
      }
    }
    if |key| == 1 && IsUpperLetter(key[0]) {
      var i := key[0] as int - 'A' as int;
      assert OccursAt(key, AsciiUppercase, i);
    }
  }
}
