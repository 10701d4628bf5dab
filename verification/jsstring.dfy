/** The pieces of JavaScript string behaviour the application relies on:
    the white-space class shared by the regular-expression escape `\s` and
    `String.prototype.trim`, and `trim` itself. */
module JsString {

  /** ECMAScript WhiteSpace and LineTerminator code points: tab, line
      tabulation, form feed, space, no-break space, zero-width no-break space,
      the Unicode space separators, line feed, carriage return, and the line
      and paragraph separators. Both `\s` and `trim` are defined over exactly
      this set; no proof below depends on which characters it contains. */
  predicate IsSpace(c: char) {
    if c <= ' ' then c == ' ' || '\t' <= c <= '\r'
    else c == '\U{00A0}' || c == '\U{1680}' || ('\U{2000}' <= c <= '\U{200A}')
         || c == '\U{2028}' || c == '\U{2029}' || c == '\U{202F}' || c == '\U{205F}'
         || c == '\U{3000}' || c == '\U{FEFF}'
  }

  /** The characters of `s` at positions `lo` up to (not including) `hi` are
      all white space. */
  predicate SpacesBetween(s: string, lo: int, hi: int) {
    forall i :: lo <= i < hi && 0 <= i < |s| ==> IsSpace(s[i])
  }

  /** Every character of `s` is white space (vacuously true of ""). */
  predicate AllSpaces(s: string) {
    SpacesBetween(s, 0, |s|)
  }

  /** Where a greedy `\s*` matched at position `k` of `s` stops: the end of
      the longest run of white space starting at `k`. */
  function SkipSpacesFrom(s: string, k: nat): (e: nat)
    requires k <= |s|
    ensures k <= e <= |s|
    ensures SpacesBetween(s, k, e)
    ensures e < |s| ==> !IsSpace(s[e])
    decreases |s| - k
  {
    if k < |s| && IsSpace(s[k]) then SkipSpacesFrom(s, k + 1) else k
  }

  /** Where the run of white space that ends at position `k` of `s` begins,
      looking no further back than `lo`. */
  function SpacesBackTo(s: string, k: nat, lo: nat): (b: nat)
    requires lo <= k <= |s|
    ensures lo <= b <= k
    ensures SpacesBetween(s, b, k)
    ensures b > lo ==> !IsSpace(s[b - 1])
    decreases k
  {
    if k > lo && IsSpace(s[k - 1]) then SpacesBackTo(s, k - 1, lo) else k
  }

  /** A run of white space from `k` to `e` that is followed by a character
      that is not white space, or by the end, is exactly what `\s*` consumes. */
  lemma {:induction false} SkipSpacesOverRun(s: string, k: nat, e: nat)
    requires k <= e <= |s|
    requires SpacesBetween(s, k, e)
    requires e < |s| ==> !IsSpace(s[e])
    ensures SkipSpacesFrom(s, k) == e
    decreases e - k
  {
    if k < e {
      assert IsSpace(s[k]);
      SkipSpacesOverRun(s, k + 1, e);
    }
  }

  /** `String.prototype.trim`: white space removed from both ends. */
  function Trim(s: string): (r: string)
    ensures |r| <= |s|
    ensures r == "" || (!IsSpace(r[0]) && !IsSpace(r[|r| - 1]))
  {
    var i := SkipSpacesFrom(s, 0);
    s[i..SpacesBackTo(s, |s|, i)]
  }

  /** Trimming removes white space, and only white space, from both ends,
      and what is left neither starts nor ends with white space: `front` and
      `back` are the removed parts. */
  lemma TrimRemovesOnlySpaces(s: string) returns (front: string, back: string)
    ensures s == front + Trim(s) + back
    ensures AllSpaces(front) && AllSpaces(back)
    ensures Trim(s) == "" || (!IsSpace(Trim(s)[0]) && !IsSpace(Trim(s)[|Trim(s)| - 1]))
  {
    var i := SkipSpacesFrom(s, 0);
    var j := SpacesBackTo(s, |s|, i);
    assert Trim(s) == s[i..j];
    front, back := SplitAroundSpaces(s, i, j);
  }

  /** Cutting `s` at `i` and `j`, where the two outer parts are white
      space. */
  lemma SplitAroundSpaces(s: string, i: nat, j: nat) returns (front: string, back: string)
    requires i <= j <= |s|
    requires SpacesBetween(s, 0, i) && SpacesBetween(s, j, |s|)
    ensures front == s[..i] && back == s[j..]
    ensures s == front + s[i..j] + back
    ensures AllSpaces(front) && AllSpaces(back)
  {
    front, back := s[..i], s[j..];
    assert s == s[..i] + s[i..j] + s[j..];
    assert AllSpaces(front) by {
      forall k | 0 <= k < i ensures IsSpace(front[k]) { assert front[k] == s[k]; }
    }
    assert AllSpaces(back) by {
      forall k | 0 <= k < |s| - j ensures IsSpace(back[k]) { assert back[k] == s[j + k]; }
    }
  }

  /** The input is blank exactly when trimming leaves nothing: the truthiness
      test `!s.trim()` holds precisely for all-white-space strings. */
  lemma TrimEmptyIffBlank(s: string)
    ensures Trim(s) == "" <==> AllSpaces(s)
  {
    var i := SkipSpacesFrom(s, 0);
    var j := SpacesBackTo(s, |s|, i);
    if i == j {
      assert i == |s|;
    } else {
      assert !IsSpace(s[i]);
    }
  }
}
