/** Character classes used by the keyword pattern: the `\w` class behind
    `\b`, and the case folding behind `re.IGNORECASE`, both over ASCII. */
module Chars {

  /** `\w`: an ASCII letter, a digit or the underscore. */
  predicate IsWordChar(c: char) {
    ('a' <= c <= 'z') || ('A' <= c <= 'Z') || ('0' <= c <= '9') || c == '_'
  }

  /** Every character of `s` is a word character. */
  predicate AllWordChars(s: string) {
    forall i :: 0 <= i < |s| ==> IsWordChar(s[i])
  }

  /** Case folding as `re.IGNORECASE` applies it to ASCII text. */
  function Fold(c: char): (r: char)
    ensures 'A' <= c <= 'Z' ==> r as int == c as int + 32
    ensures !('A' <= c <= 'Z') ==> r == c
    ensures !('A' <= r <= 'Z')
    ensures IsWordChar(r) <==> IsWordChar(c)
    ensures 'a' <= r <= 'z' <==> ('a' <= c <= 'z' || 'A' <= c <= 'Z')
  {
    if 'A' <= c <= 'Z' then (c as int - 'A' as int + 'a' as int) as char else c
  }

  /** An ASCII letter of either case. */
  predicate IsLetter(c: char) {
    ('a' <= c <= 'z') || ('A' <= c <= 'Z')
  }

  /** Two characters are equal up to case exactly when they are the same
      character, or the two cases of one ASCII letter (32 code points apart). */
  lemma FoldEqualsIff(c: char, d: char)
    ensures Fold(c) == Fold(d) <==>
      c == d || (IsLetter(c) && IsLetter(d) && (c as int - d as int == 32 || d as int - c as int == 32))
  {
  }

  /** Two strings of the same length whose characters agree up to case. */
  predicate EqualsIgnoreCase(a: string, b: string) {
    |a| == |b| && forall i :: 0 <= i < |a| ==> Fold(a[i]) == Fold(b[i])
  }

  /** A string that matches an all-word-character string up to case is made of
      word characters too: case folding never crosses the `\w` class. */
  lemma IgnoreCaseKeepsWordChars(a: string, b: string)
    requires EqualsIgnoreCase(a, b) && AllWordChars(b)
    ensures AllWordChars(a)
  {
    forall i | 0 <= i < |a| ensures IsWordChar(a[i]) {
      assert Fold(a[i]) == Fold(b[i]);
    }
  }
}
