/**
 * ASCII case folding. The source lower-cases with the invariant culture
 * (`ToLowerInvariant`, `InvariantCultureIgnoreCase`, `RegexOptions.IgnoreCase`);
 * this model folds only the letters A-Z.
 */
module Ascii {

  predicate IsUpper(c: char) {
    'A' <= c <= 'Z'
  }

  /** Lower-cases one character; everything but A-Z is left alone. */
  function LowerChar(c: char): (r: char)
    ensures !IsUpper(r)
    ensures !IsUpper(c) ==> r == c
    ensures IsUpper(c) ==> r != c && 'a' <= r <= 'z'
  {
    if IsUpper(c) then (c as int + 32) as char else c
  }

  /** Lower-cases a whole string, position by position. */
  function Lower(s: string): (r: string)
    ensures |r| == |s|
    ensures forall i :: 0 <= i < |s| ==> r[i] == LowerChar(s[i])
    ensures forall i :: 0 <= i < |r| ==> !IsUpper(r[i])
  {
    seq(|s|, i requires 0 <= i < |s| => LowerChar(s[i]))
  }

  /**
   * `a`, lower-cased, is `b`: how a lower-case pattern matches text when
   * case is ignored.
   */
  predicate LowersTo(a: string, b: string)
    decreases |a|
  {
    |a| == |b| && (|a| == 0 || (LowerChar(a[0]) == b[0] && LowersTo(a[1..], b[1..])))
  }

  /** `LowersTo` compares position by position. */
  lemma {:induction false} LowersToAt(a: string, b: string, k: nat)
    requires LowersTo(a, b) && k < |a|
    ensures LowerChar(a[k]) == b[k]
    decreases k
  {
    if k > 0 {
      LowersToAt(a[1..], b[1..], k - 1);
    }
  }

  /** Case-insensitive equality of two strings. */
  predicate EqualsIgnoreCase(a: string, b: string) {
    |a| == |b| && forall i :: 0 <= i < |a| ==> LowerChar(a[i]) == LowerChar(b[i])
  }

  /** Two strings are equal ignoring case exactly when their lower-cased forms are equal. */
  lemma EqualsIgnoreCaseIffLowerEqual(a: string, b: string)
    ensures EqualsIgnoreCase(a, b) <==> Lower(a) == Lower(b)
  {
    if Lower(a) == Lower(b) {
      assert |a| == |Lower(a)|;
      forall i | 0 <= i < |a|
        ensures LowerChar(a[i]) == LowerChar(b[i])
      {
        assert Lower(a)[i] == Lower(b)[i];
      }
    }
  }

  /** A non-letter is matched, ignoring case, only by itself. */
  lemma LowerCharNonLetter(c: char, d: char)
    requires !('A' <= d <= 'Z') && !('a' <= d <= 'z')
    ensures LowerChar(c) == d <==> c == d
  {
  }
}
