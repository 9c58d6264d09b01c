/**
 * The closing body tag and the filter's right-to-left, ignore-case search
 * for it (`BodyClosingTag` and `BodyEndRegex` of the toast filter).
 */
module BodyTag {
  import opened Ascii
  import opened Wrappers

  /** The html closing tag the filter looks for and writes back. */
  const Tag: string := "</body>"

  /** The tag occurs, ignoring case, at position `i` of `t`. */
  predicate MatchesAt(t: string, i: int) {
    0 <= i && i + |Tag| <= |t| && LowersTo(t[i..i + |Tag|], Tag)
  }

  /** The tag occurs somewhere in `t`. */
  ghost predicate Occurs(t: string) {
    exists i :: MatchesAt(t, i)
  }

  /** `i` is the start of the last occurrence of the tag in `t`. */
  ghost predicate IsRightmost(t: string, i: int) {
    MatchesAt(t, i) && forall j :: i < j ==> !MatchesAt(t, j)
  }

  /**
   * Scans the start positions below `n` from right to left and returns the
   * first one where the tag matches.
   */
  function LastMatchBelow(t: string, n: nat): (r: Option<nat>)
    requires n <= |t|
    ensures r.Some? ==> r.value < n && MatchesAt(t, r.value)
    ensures r.Some? ==> forall j :: r.value < j < n ==> !MatchesAt(t, j)
    ensures r.None? ==> forall j :: j < n ==> !MatchesAt(t, j)
    decreases n
  {
    if n == 0 then None
    else if MatchesAt(t, n - 1) then Some(n - 1)
    else LastMatchBelow(t, n - 1)
  }

  /** What the right-to-left regex `Match` finds: the last occurrence, if any. */
  function Rightmost(t: string): (r: Option<nat>)
    ensures r.Some? <==> Occurs(t)
    ensures r.Some? ==> IsRightmost(t, r.value)
  {
    LastMatchBelow(t, |t|)
  }

  /**
   * `Regex.Replace(t, rep, 1)` with the right-to-left regex: the last
   * occurrence of the tag is replaced by `rep`; without one, `t` is returned.
   */
  function ReplaceRightmost(t: string, rep: string): (r: string)
    ensures !Occurs(t) ==> r == t
    ensures forall i :: IsRightmost(t, i) ==> r == t[..i] + rep + t[i + |Tag|..]
  {
    match Rightmost(t)
    case None => t
    case Some(i) =>
      RightmostUnique(t);
      t[..i] + rep + t[i + |Tag|..]
  }

  /** There is at most one last occurrence. */
  lemma RightmostUnique(t: string)
    ensures forall i, j :: IsRightmost(t, i) && IsRightmost(t, j) ==> i == j
  {
  }

  /** The lower-case tag matches itself. */
  lemma TagMatchesItself(t: string, i: nat)
    requires i + |Tag| <= |t| && t[i..i + |Tag|] == Tag
    ensures MatchesAt(t, i)
  {
  }

  /**
   * Two occurrences of the tag never overlap: only its first character is
   * `<`, and no other character of the tag folds to `<`.
   */
  lemma NoOverlap(t: string, i: int)
    requires MatchesAt(t, i)
    ensures forall j :: i < j < i + |Tag| ==> !MatchesAt(t, j)
  {
    forall j | i < j < i + |Tag|
      ensures !MatchesAt(t, j)
    {
      LowersToAt(t[i..i + |Tag|], Tag, j - i);
      assert t[i..i + |Tag|][j - i] == t[j];
      LowerCharNonLetter(t[j], '<');
      if j + |Tag| <= |t| {
        assert t[j..j + |Tag|][0] == t[j];
      }
    }
  }

  /** Matches in a suffix are matches of the whole string, shifted. */
  lemma MatchesInSuffix(t: string, k: nat, j: nat)
    requires k <= |t|
    ensures MatchesAt(t[k..], j) <==> MatchesAt(t, k + j)
  {
    if 0 <= j && j + |Tag| <= |t| - k {
      assert t[k..][j..j + |Tag|] == t[k + j..k + j + |Tag|];
    }
  }

  /** Matches in a prefix are the matches of the whole string that fit in it. */
  lemma MatchesInPrefix(t: string, n: nat, j: int)
    requires n <= |t|
    ensures MatchesAt(t[..n], j) <==> MatchesAt(t, j) && j + |Tag| <= n
  {
    if 0 <= j && j + |Tag| <= n {
      assert t[..n][j..j + |Tag|] == t[j..j + |Tag|];
    }
  }

  /**
   * Splicing text `x` plus a lower-case tag over the last occurrence keeps a
   * last occurrence, now at the spliced tag.
   */
  lemma SpliceKeepsRightmost(t: string, i: nat, x: string)
    requires IsRightmost(t, i)
    ensures IsRightmost(t[..i] + (x + Tag) + t[i + |Tag|..], i + |x|)
  {
    var post := t[i + |Tag|..];
    var u := t[..i] + (x + Tag) + post;
    var p := i + |x|;
    assert u[p..p + |Tag|] == Tag;
    TagMatchesItself(u, p);
    NoOverlap(u, p);
    assert u[p + |Tag|..] == post;
    forall j | p + |Tag| <= j
      ensures !MatchesAt(u, j)
    {
      MatchesInSuffix(u, p + |Tag|, j - p - |Tag|);
      MatchesInSuffix(t, i + |Tag|, j - p - |Tag|);
    }
  }
}
