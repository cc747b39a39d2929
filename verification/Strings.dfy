/** What the other modules have in common about strings. */
module Strings {

  /** The text occurs somewhere in the string. */
  predicate Contains(s: string, text: string) { exists i :: 0 <= i <= |s| && text <= s[i..] }

  lemma Assoc(a: string, b: string, c: string)
    ensures a + b + c == a + (b + c)
  {
  }
}
