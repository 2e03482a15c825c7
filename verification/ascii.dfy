/**
 Character case mapping, restricted to ASCII.

 JavaScript's `toLowerCase` and `toUpperCase` follow the full Unicode case
 tables; this model maps only 'A'..'Z' and 'a'..'z' and leaves every other
 character (digits, punctuation, non-ASCII letters) unchanged.
 */
module Ascii {

  predicate IsUpper(c: char) {
    'A' <= c <= 'Z'
  }

  predicate IsLower(c: char) {
    'a' <= c <= 'z'
  }

  /** Lower-cases one ASCII letter; every other character is returned as is. */
  function Lower(c: char): (r: char)
    ensures !IsUpper(r)
    ensures !IsUpper(c) ==> r == c
    ensures IsUpper(c) ==> IsLower(r) && r as int == c as int + 32
  {
    if IsUpper(c) then (c as int + 32) as char else c
  }

  /** Upper-cases one ASCII letter; every other character is returned as is. */
  function Upper(c: char): (r: char)
    ensures !IsLower(r)
    ensures !IsLower(c) ==> r == c
    ensures IsLower(c) ==> IsUpper(r) && r as int == c as int - 32
  {
    if IsLower(c) then (c as int - 32) as char else c
  }

  /** Lower-cases a string character by character (the model of `toLowerCase`). */
  function LowerStr(s: string): (r: string)
    ensures |r| == |s|
    ensures forall i | 0 <= i < |s| :: r[i] == Lower(s[i])
  {
    seq(|s|, i requires 0 <= i < |s| => Lower(s[i]))
  }

  /** Upper-casing a character never changes what it lower-cases to. */
  lemma LowerOfUpper(c: char)
    ensures Lower(Upper(c)) == Lower(c)
  {
  }

  /** Lower-casing commutes with taking a slice. */
  lemma LowerStrSlice(s: string, i: int, j: int)
    requires 0 <= i <= j <= |s|
    ensures LowerStr(s)[i..j] == LowerStr(s[i..j])
  {
  }

  /** Lower-casing commutes with concatenation. */
  lemma LowerStrAppend(s: string, t: string)
    ensures LowerStr(s + t) == LowerStr(s) + LowerStr(t)
  {
  }
}
