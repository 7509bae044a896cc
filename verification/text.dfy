/**
  ASCII stand-ins for the two string primitives the runner uses on header
  names: trimming surrounding white space and upper-casing.  White space is
  the six-character set of `isWhiteSpace` (HT, LF, VT, FF, CR, space); upper
  case maps `a`..`z` to `A`..`Z` and leaves every other character alone.
 */
module Text {

  /** The characters `isWhiteSpace` compares against, in declaration order. */
  const WhiteSpace: seq<char> := ['\t', '\n', 11 as char, 12 as char, '\r', ' ']

  /** Membership in `WhiteSpace`: exactly space and the control range HT..CR. */
  function IsWhiteSpace(c: char): (b: bool)
    ensures b <==> c == ' ' || '\t' <= c <= '\r'
  {
    c in WhiteSpace
  }

  /** Every character of `s` in `[lo, hi)` is white space. */
  predicate SpaceBetween(s: string, lo: int, hi: int)
  {
    forall k :: lo <= k < hi && 0 <= k < |s| ==> IsWhiteSpace(s[k])
  }

  /** Neither the first nor the last character is white space. */
  predicate IsTrimmed(s: string)
  {
    |s| == 0 || (!IsWhiteSpace(s[0]) && !IsWhiteSpace(s[|s| - 1]))
  }

  /** `r` is `s` with a white-space prefix and a white-space suffix removed, and nothing else. */
  predicate IsTrimOf(r: string, s: string)
  {
    && IsTrimmed(r)
    && exists a, b {:trigger s[a..b]} :: 0 <= a <= b <= |s| && r == s[a..b] && SpaceBetween(s, 0, a) && SpaceBetween(s, b, |s|)
  }

  /** Index of the first non-space character at or after `i` (or `|s|`). */
  function SpaceEnd(s: string, i: nat): (j: nat)
    requires i <= |s|
    ensures i <= j <= |s|
    ensures SpaceBetween(s, i, j)
    ensures j < |s| ==> !IsWhiteSpace(s[j])
    decreases |s| - i
  {
    if i < |s| && IsWhiteSpace(s[i]) then SpaceEnd(s, i + 1) else i
  }

  /** Scanning down from `j` but not below `lo`: the index just after the last non-space character. */
  function SpaceStart(s: string, lo: nat, j: nat): (i: nat)
    requires lo <= j <= |s|
    ensures lo <= i <= j
    ensures SpaceBetween(s, i, j)
    ensures lo < i ==> !IsWhiteSpace(s[i - 1])
    decreases j
  {
    if lo < j && IsWhiteSpace(s[j - 1]) then SpaceStart(s, lo, j - 1) else j
  }

  /** Leading and trailing white space removed (the trim applied to every header field). */
  function TrimSpace(s: string): (r: string)
    ensures IsTrimmed(r) && |r| <= |s|
  {
    var a := SpaceEnd(s, 0);
    s[a..SpaceStart(s, a, |s|)]
  }

  /** What `TrimSpace` removes is a white-space prefix and a white-space suffix, and nothing else. */
  lemma TrimSpaceIsTrim(s: string)
    ensures IsTrimOf(TrimSpace(s), s)
  {
    var a := SpaceEnd(s, 0);
    var b := SpaceStart(s, a, |s|);
    assert TrimSpace(s) == s[a..b];
  }

  /** A string without surrounding white space is its own trim. */
  lemma TrimmedIsFixed(s: string)
    requires IsTrimmed(s)
    ensures TrimSpace(s) == s
  {
    if |s| > 0 {
      assert SpaceEnd(s, 0) == 0;
      assert SpaceStart(s, 0, |s|) == |s|;
      assert TrimSpace(s) == s[0..|s|];
    }
  }

  /** Trimming twice is trimming once. */
  lemma TrimIdempotent(s: string)
    ensures TrimSpace(TrimSpace(s)) == TrimSpace(s)
  {
    TrimmedIsFixed(TrimSpace(s));
  }

  /** The forward scan stops at the first non-space character at or after `i`. */
  lemma {:induction false} SpaceEndAt(s: string, i: nat, a: nat)
    requires i <= a < |s| && SpaceBetween(s, i, a) && !IsWhiteSpace(s[a])
    ensures SpaceEnd(s, i) == a
    decreases a - i
  {
    if i < a {
      SpaceEndAt(s, i + 1, a);
    }
  }

  /** The backward scan stops just after the last non-space character at or below `j`. */
  lemma {:induction false} SpaceStartAt(s: string, lo: nat, b: nat, j: nat)
    requires lo < b <= j <= |s| && SpaceBetween(s, b, j) && !IsWhiteSpace(s[b - 1])
    ensures SpaceStart(s, lo, j) == b
    decreases j
  {
    if b < j {
      SpaceStartAt(s, lo, b, j - 1);
    }
  }

  /** A string made only of white space trims to the empty string. */
  lemma AllSpaceTrimsEmpty(s: string)
    requires SpaceBetween(s, 0, |s|)
    ensures TrimSpace(s) == []
  {
    assert SpaceEnd(s, 0) == |s|;
  }

  /** `IsTrimOf` pins down a single string: `TrimSpace` is the only trim of `s`. */
  lemma TrimUnique(r: string, s: string)
    requires IsTrimOf(r, s)
    ensures r == TrimSpace(s)
  {
    var a, b :| 0 <= a <= b <= |s| && r == s[a..b] && SpaceBetween(s, 0, a) && SpaceBetween(s, b, |s|);
    if a == b {
      assert SpaceBetween(s, 0, |s|);
      AllSpaceTrimsEmpty(s);
    } else {
      assert s[a] == r[0] && s[b - 1] == r[|r| - 1];
      TrimBetween(s, a, b);
    }
  }

  /** Cutting a white-space prefix and suffix that end at non-space characters is what `TrimSpace` does. */
  lemma TrimBetween(s: string, a: nat, b: nat)
    requires a < b <= |s| && SpaceBetween(s, 0, a) && SpaceBetween(s, b, |s|)
    requires !IsWhiteSpace(s[a]) && !IsWhiteSpace(s[b - 1])
    ensures TrimSpace(s) == s[a..b]
  {
    SpaceEndAt(s, 0, a);
    SpaceStartAt(s, a, b, |s|);
  }

  /** ASCII upper case of one character. */
  function UpperChar(c: char): (u: char)
    ensures !('a' <= u <= 'z')
    ensures 'a' <= c <= 'z' ==> u as int == c as int - 32
    ensures !('a' <= c <= 'z') ==> u == c
  {
    if 'a' <= c <= 'z' then (c as int - 32) as char else c
  }

  /** ASCII upper case of a string, character by character. */
  function ToUpper(s: string): (r: string)
    ensures |r| == |s|
    ensures forall i :: 0 <= i < |s| ==> r[i] == UpperChar(s[i])
  {
    if |s| == 0 then [] else [UpperChar(s[0])] + ToUpper(s[1..])
  }

  /** Two strings are equal ignoring ASCII case exactly when their upper-cased forms agree. */
  predicate SameUpperCase(s: string, t: string)
  {
    ToUpper(s) == ToUpper(t)
  }
}
