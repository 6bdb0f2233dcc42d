/** ASCII classes and case folding on byte strings. */
module Ascii {

  predicate Upper(c: char) { 'A' <= c <= 'Z' }

  predicate LowerCase(c: char) { 'a' <= c <= 'z' }

  predicate IsAscii(c: char) { c < 128 as char }

  function ToLower(c: char): char {
    if Upper(c) then (c as int + 32) as char else c
  }

  /** A capital becomes the small letter in its place of the alphabet; nothing else changes. */
  lemma LowerKeepsPlace(c: char)
    ensures 'A' <= c <= 'Z' ==> 'a' <= ToLower(c) <= 'z' && ToLower(c) - 'a' == c - 'A'
    ensures !('A' <= c <= 'Z') ==> ToLower(c) == c
  {
  }

  /** ASCII is the bytes without the high bit; its small letters are the capitals lowered. */
  lemma Classes(c: char)
    ensures IsAscii(c) <==> c as nat < 0x80
    ensures LowerCase(c) <==> 'A' as int <= c as int - 32 <= 'Z' as int
  {
  }

  function Lower(s: string): string {
    seq(|s|, i requires 0 <= i < |s| => ToLower(s[i]))
  }

  predicate EqIgnoreCase(s: string, t: string) { Lower(s) == Lower(t) }
}
