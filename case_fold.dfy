/**
 * Case folding of table and column names. The data set folds every name with
 * String.toUpperCase; this model folds the ASCII letters a-z and leaves every
 * other character as it is.
 */
module CaseFold {

  /** True when the character is not a lower-case ASCII letter (digits and punctuation included). */
  predicate NotLowerChar(c: char) {
    !('a' <= c <= 'z')
  }

  /** True when no character of the string is a lower-case ASCII letter. */
  predicate HasNoLowerCase(s: string) {
    forall i :: 0 <= i < |s| ==> NotLowerChar(s[i])
  }

  /** The upper-case form of one character. */
  function UpperChar(c: char): (u: char)
    ensures NotLowerChar(u)
    ensures NotLowerChar(c) ==> u == c
    ensures !NotLowerChar(c) ==> u as int + 32 == c as int
  {
    if 'a' <= c <= 'z' then (c as int - 32) as char else c
  }

  /** The upper-case form of a string: each character folded in place. */
  function Upper(s: string): (r: string)
    ensures |r| == |s|
    ensures HasNoLowerCase(r)
    ensures forall i :: 0 <= i < |s| ==> r[i] == UpperChar(s[i])
  {
    if s == [] then [] else [UpperChar(s[0])] + Upper(s[1..])
  }

  /** A string with no lower-case letter is its own upper-case form. */
  lemma {:induction false} UpperKeepsUpper(s: string)
    requires HasNoLowerCase(s)
    ensures Upper(s) == s
  {
    if s != [] {
      UpperKeepsUpper(s[1..]);
    }
  }

  /** Folding twice is folding once. */
  lemma UpperIdempotent(s: string)
    ensures Upper(Upper(s)) == Upper(s)
  {
    UpperKeepsUpper(Upper(s));
  }

  /** Two names that differ at most in the case of ASCII letters, position by position. */
  predicate SameUpToCase(a: string, b: string) {
    |a| == |b| &&
    forall i :: 0 <= i < |a| ==>
      a[i] == b[i] ||
      ('a' <= a[i] <= 'z' && a[i] as int == b[i] as int + 32) ||
      ('a' <= b[i] <= 'z' && b[i] as int == a[i] as int + 32)
  }

  /** Two names fold to the same key exactly when they differ at most in letter case. */
  lemma {:induction false} UpperIgnoresCase(a: string, b: string)
    ensures SameUpToCase(a, b) <==> Upper(a) == Upper(b)
  {
    if Upper(a) == Upper(b) {
      forall i | 0 <= i < |a|
        ensures UpperChar(a[i]) == UpperChar(b[i])
      {
        assert Upper(a)[i] == Upper(b)[i];
      }
    }
  }

}
