/**
  The shell-variable pattern `\$\{?(\w+)\}?` as a hand-written scanner over
  characters, with the leftmost, non-overlapping search used to count
  template fields and the replacement that turns every reference into the
  PowerShell form `$Env:<name>`.

  At a `$` the pattern takes a `{` when a word character follows it, then the
  longest run of word characters, then a `}` when one follows.  So `$abc}`
  consumes the `}` and `${abc` matches without a closing brace; `${}` and a
  lone `$` do not match at all.
 */
module ShellVars {
  import opened Wrappers

  /** `\w` of the regular-expression engine: ASCII letters, digits and underscore. */
  predicate IsWordChar(c: char)
  {
    'a' <= c <= 'z' || 'A' <= c <= 'Z' || '0' <= c <= '9' || c == '_'
  }

  /** One occurrence of the pattern: `t[start..end]` is the matched text and `name` the captured word. */
  datatype Match = Match(start: nat, end: nat, name: string)

  /** Length of the run of word characters starting at `i`. */
  function WordRun(t: string, i: nat): (n: nat)
    requires i <= |t|
    ensures i + n <= |t|
    ensures forall k :: i <= k < i + n ==> IsWordChar(t[k])
    ensures i + n == |t| || !IsWordChar(t[i + n])
    decreases |t| - i
  {
    if i < |t| && IsWordChar(t[i]) then 1 + WordRun(t, i + 1) else 0
  }

  /** A word character sits at index `k` of `t`. */
  predicate WordAt(t: string, k: int)
  {
    0 <= k < |t| && IsWordChar(t[k])
  }

  /** Some occurrence of the pattern begins at index `i`. */
  predicate StartsReference(t: string, i: int)
  {
    0 <= i < |t| && t[i] == '$' && (WordAt(t, i + 1) || (i + 1 < |t| && t[i + 1] == '{' && WordAt(t, i + 2)))
  }

  /**
    `m` is the occurrence of the pattern that the engine reports at `m.start`:
    a `$`, the brace when there is one, the longest word, the closing brace
    when there is one.
   */
  predicate IsMatchIn(t: string, m: Match)
  {
    && StartsReference(t, m.start)
    && var a := if t[m.start + 1] == '{' then m.start + 2 else m.start + 1;
    && var e := a + |m.name|;
    && 0 < |m.name| && e <= |t|
    && m.name == t[a..e]
    && (forall k :: a <= k < e ==> IsWordChar(t[k]))
    && (e == |t| || !IsWordChar(t[e]))
    && m.end == (if e < |t| && t[e] == '}' then e + 1 else e)
  }

  /** The occurrence of the pattern that begins at `i`, if any. */
  function MatchAt(t: string, i: nat): (r: Option<Match>)
    requires i <= |t|
    ensures r.Some? <==> StartsReference(t, i)
    ensures r.Some? ==> r.value.start == i && i < r.value.end <= |t|
  {
    if !StartsReference(t, i) then None
    else
      var a := if t[i + 1] == '{' then i + 2 else i + 1;
      var e := a + WordRun(t, a);
      Some(Match(i, if e < |t| && t[e] == '}' then e + 1 else e, t[a..e]))
  }

  /** The match found at `i` has the shape of the pattern: brace, longest word, brace. */
  lemma MatchAtIsMatch(t: string, i: nat)
    requires i <= |t| && StartsReference(t, i)
    ensures MatchAt(t, i).Some? && IsMatchIn(t, MatchAt(t, i).value)
  {
  }

  /** The word run from `i` is `n` long when `n` word characters follow `i` and then none. */
  lemma WordRunIs(t: string, i: nat, n: nat)
    requires i + n <= |t|
    requires forall k :: i <= k < i + n ==> IsWordChar(t[k])
    requires i + n == |t| || !IsWordChar(t[i + n])
    ensures WordRun(t, i) == n
  {
    var m := WordRun(t, i);
    if m < n {
      assert false;
    } else if n < m {
      assert false;
    }
  }

  /** `${` followed by a word of `n` characters and `}` is a reference to that word, braces included. */
  lemma BracedReference(t: string, i: nat, n: nat)
    requires 0 < n && i + 3 + n <= |t|
    requires t[i] == '$' && t[i + 1] == '{' && t[i + 2 + n] == '}'
    requires forall k :: i + 2 <= k < i + 2 + n ==> IsWordChar(t[k])
    ensures MatchAt(t, i) == Some(Match(i, i + 3 + n, t[i + 2..i + 2 + n]))
  {
    WordRunIs(t, i + 2, n);
  }

  /** `${` followed by a word that no `}` closes is still a reference to the word; the match ends with it. */
  lemma UnclosedBraceReference(t: string, i: nat, n: nat)
    requires 0 < n && i + 2 + n <= |t|
    requires t[i] == '$' && t[i + 1] == '{'
    requires forall k :: i + 2 <= k < i + 2 + n ==> IsWordChar(t[k])
    requires i + 2 + n == |t| || (!IsWordChar(t[i + 2 + n]) && t[i + 2 + n] != '}')
    ensures MatchAt(t, i) == Some(Match(i, i + 2 + n, t[i + 2..i + 2 + n]))
  {
    WordRunIs(t, i + 2, n);
  }

  /** `$` followed by a word of `n` characters, and then neither a word character nor `}`, is a reference to the word. */
  lemma UnbracedReference(t: string, i: nat, n: nat)
    requires 0 < n && i + 1 + n <= |t|
    requires t[i] == '$'
    requires forall k :: i + 1 <= k < i + 1 + n ==> IsWordChar(t[k])
    requires i + 1 + n == |t| || (!IsWordChar(t[i + 1 + n]) && t[i + 1 + n] != '}')
    ensures MatchAt(t, i) == Some(Match(i, i + 1 + n, t[i + 1..i + 1 + n]))
  {
    WordRunIs(t, i + 1, n);
  }

  /** `$` followed by a word and then `}` takes the `}` into the match although no `{` was opened. */
  lemma UnopenedBraceTaken(t: string, i: nat, n: nat)
    requires 0 < n && i + 2 + n <= |t|
    requires t[i] == '$' && t[i + 1 + n] == '}'
    requires forall k :: i + 1 <= k < i + 1 + n ==> IsWordChar(t[k])
    ensures MatchAt(t, i) == Some(Match(i, i + 2 + n, t[i + 1..i + 1 + n]))
  {
    WordRunIs(t, i + 1, n);
  }

  /** No occurrence of the pattern begins anywhere in `[lo, hi)`. */
  predicate NoMatchIn(t: string, lo: int, hi: int)
  {
    forall p :: lo <= p < hi ==> !StartsReference(t, p)
  }

  /** Two matches reported at the same index are the same match. */
  lemma MatchDeterministic(t: string, x: Match, y: Match)
    requires IsMatchIn(t, x) && IsMatchIn(t, y) && x.start == y.start
    ensures x == y
  {
    var a := if t[x.start + 1] == '{' then x.start + 2 else x.start + 1;
    if |x.name| < |y.name| {
      assert false;
    } else if |y.name| < |x.name| {
      assert false;
    }
  }

  /**
    `ms` is the leftmost, non-overlapping list of occurrences in `t[i..]`:
    no occurrence begins before the first element, the first element is the
    engine's match at its start, and the rest is the leftmost list from the
    end of that match on.
   */
  predicate IsLeftmostScan(t: string, i: nat, ms: seq<Match>)
    decreases |ms|
  {
    && i <= |t|
    && if |ms| == 0 then NoMatchIn(t, i, |t|)
       else
         && i <= ms[0].start < ms[0].end <= |t|
         && NoMatchIn(t, i, ms[0].start)
         && IsMatchIn(t, ms[0])
         && IsLeftmostScan(t, ms[0].end, ms[1..])
  }

  /** The matches lie in `t[i..]`, in order and without overlapping. */
  predicate Ordered(t: string, i: nat, ms: seq<Match>)
    decreases |ms|
  {
    && i <= |t|
    && (|ms| == 0 || (i <= ms[0].start < ms[0].end <= |t| && Ordered(t, ms[0].end, ms[1..])))
  }

  /** All occurrences in `t[i..]`, searching left to right and resuming after each match. */
  function FindAllFrom(t: string, i: nat): (ms: seq<Match>)
    requires i <= |t|
    ensures Ordered(t, i, ms)
    decreases |t| - i
  {
    if i == |t| then []
    else match MatchAt(t, i)
      case Some(m) => [m] + FindAllFrom(t, m.end)
      case None => FindAllFrom(t, i + 1)
  }

  /** The search finds the leftmost, non-overlapping list of occurrences. */
  lemma {:induction false} FindAllIsLeftmost(t: string, i: nat)
    requires i <= |t|
    ensures IsLeftmostScan(t, i, FindAllFrom(t, i))
    decreases |t| - i
  {
    if i < |t| {
      match MatchAt(t, i)
      case Some(m) =>
        MatchAtIsMatch(t, i);
        FindAllIsLeftmost(t, m.end);
        assert FindAllFrom(t, i)[1..] == FindAllFrom(t, m.end);
      case None =>
        FindAllIsLeftmost(t, i + 1);
    }
  }

  /** Every occurrence of the pattern in the template, as `FindAllStringSubmatch(t, -1)` reports them. */
  function FindAll(t: string): (ms: seq<Match>)
    ensures IsLeftmostScan(t, 0, ms)
  {
    FindAllIsLeftmost(t, 0);
    FindAllFrom(t, 0)
  }

  /** The captured names, in template order. */
  function Names(ms: seq<Match>): (ns: seq<string>)
    ensures |ns| == |ms|
    ensures forall k :: 0 <= k < |ms| ==> ns[k] == ms[k].name
  {
    if |ms| == 0 then [] else [ms[0].name] + Names(ms[1..])
  }

  /** A leftmost scan from `i` begins with the match at `i` whenever there is one. */
  lemma ScanStartsAtReference(t: string, i: nat, ms: seq<Match>)
    requires IsLeftmostScan(t, i, ms) && StartsReference(t, i)
    ensures |ms| > 0 && ms[0].start == i
  {
  }

  /** The leftmost scan is unique: any list with its defining properties is the one `FindAllFrom` computes. */
  lemma {:induction false} LeftmostScanUnique(t: string, i: nat, ms: seq<Match>)
    requires IsLeftmostScan(t, i, ms)
    ensures ms == FindAllFrom(t, i)
    decreases |t| - i, 1
  {
    if i == |t| {
      ScanAtEnd(t, ms);
    } else if StartsReference(t, i) {
      ScanUniqueAtReference(t, i, ms);
    } else {
      ScanSkipsNonReference(t, i, ms);
      ScanUniqueElsewhere(t, i, ms);
    }
  }

  /** The uniqueness step where a reference starts: both take it and continue after it. */
  lemma {:induction false} ScanUniqueAtReference(t: string, i: nat, ms: seq<Match>)
    requires IsLeftmostScan(t, i, ms) && i < |t| && StartsReference(t, i)
    ensures ms == FindAllFrom(t, i)
    decreases |t| - i, 0
  {
    var m := MatchAt(t, i).value;
    ScanTakesMatch(t, i, ms, m);
    LeftmostScanUnique(t, m.end, ms[1..]);
    FindAllAtMatch(t, i, m);
    assert ms == [m] + ms[1..];
  }

  /** The uniqueness step where no reference starts: both move on by one character. */
  lemma {:induction false} ScanUniqueElsewhere(t: string, i: nat, ms: seq<Match>)
    requires IsLeftmostScan(t, i + 1, ms) && i < |t| && !StartsReference(t, i)
    ensures ms == FindAllFrom(t, i)
    decreases |t| - i, 0
  {
    LeftmostScanUnique(t, i + 1, ms);
    FindAllAtOther(t, i);
  }


  /** A leftmost scan from the end of the text finds nothing, as the search does. */
  lemma ScanAtEnd(t: string, ms: seq<Match>)
    requires IsLeftmostScan(t, |t|, ms)
    ensures ms == [] == FindAllFrom(t, |t|)
  {
    if |ms| > 0 {
      assert false;
    }
  }

  /** A leftmost scan from a position where a reference starts takes that reference first. */
  lemma ScanTakesMatch(t: string, i: nat, ms: seq<Match>, m: Match)
    requires IsLeftmostScan(t, i, ms) && i <= |t| && MatchAt(t, i) == Some(m)
    ensures |ms| > 0 && ms[0] == m && IsLeftmostScan(t, m.end, ms[1..])
  {
    ScanStartsAtReference(t, i, ms);
    MatchAtIsMatch(t, i);
    MatchDeterministic(t, ms[0], m);
  }

  /** A leftmost scan from a position where no reference starts is also one from the next position. */
  lemma ScanSkipsNonReference(t: string, i: nat, ms: seq<Match>)
    requires IsLeftmostScan(t, i, ms) && i < |t| && !StartsReference(t, i)
    ensures IsLeftmostScan(t, i + 1, ms)
  {
    if |ms| > 0 {
      assert ms[0].start != i by {
        assert IsMatchIn(t, ms[0]);
      }
    }
  }

  /** At a reference the search records it and resumes after it. */
  lemma FindAllAtMatch(t: string, i: nat, m: Match)
    requires i < |t| && MatchAt(t, i) == Some(m)
    ensures FindAllFrom(t, i) == [m] + FindAllFrom(t, m.end)
  {
  }

  /** Where no reference starts the search moves on by one character. */
  lemma FindAllAtOther(t: string, i: nat)
    requires i < |t| && !StartsReference(t, i)
    ensures FindAllFrom(t, i) == FindAllFrom(t, i + 1)
  {
  }



  /** `ReplaceAllString(t, "$$Env:$1")` from index `i` on: each occurrence becomes `$Env:<name>`. */
  function ReplaceAllFrom(t: string, i: nat): string
    requires i <= |t|
    decreases |t| - i
  {
    if i == |t| then []
    else match MatchAt(t, i)
      case Some(m) => "$Env:" + m.name + ReplaceAllFrom(t, m.end)
      case None => [t[i]] + ReplaceAllFrom(t, i + 1)
  }

  /** The template rewritten for PowerShell: every match of the search replaced, the rest copied. */
  function ToPowerShell(t: string): (r: string)
    ensures r == Splice(t, FindAll(t), 0)
  {
    ReplaceAllIsSplice(t, 0);
    ReplaceAllFrom(t, 0)
  }

  /**
    Reference definition of a replacement: the text between matches copied
    verbatim, every match `m` replaced by `$Env:` followed by `m.name`.
   */
  function Splice(t: string, ms: seq<Match>, i: nat): string
    requires Ordered(t, i, ms)
    decreases |ms|
  {
    if |ms| == 0 then t[i..]
    else t[i..ms[0].start] + "$Env:" + ms[0].name + Splice(t, ms[1..], ms[0].end)
  }

  /** Replacing from a match start: the match's replacement, then the rest of the template. */
  lemma SpliceAtMatch(t: string, i: nat, m: Match)
    requires i < |t| && MatchAt(t, i) == Some(m)
    ensures Splice(t, FindAllFrom(t, i), i) == "$Env:" + m.name + Splice(t, FindAllFrom(t, m.end), m.end)
  {
    FindAllAtMatch(t, i, m);
    var ms := FindAllFrom(t, i);
    assert ms[1..] == FindAllFrom(t, m.end);
    assert t[i..ms[0].start] == [];
  }

  /** Replacing from a character that starts no match: that character, then the rest of the template. */
  lemma SpliceAtOther(t: string, i: nat)
    requires i < |t| && MatchAt(t, i).None?
    ensures Splice(t, FindAllFrom(t, i), i) == [t[i]] + Splice(t, FindAllFrom(t, i + 1), i + 1)
  {
    FindAllAtOther(t, i);
    var ms := FindAllFrom(t, i + 1);
    if |ms| == 0 {
      assert [t[i]] + t[i + 1..] == t[i..];
    } else {
      assert [t[i]] + t[i + 1..ms[0].start] == t[i..ms[0].start];
    }
  }

  /** The rewrite replaces exactly the scanned matches and copies every other character unchanged. */
  lemma {:induction false} ReplaceAllIsSplice(t: string, i: nat)
    requires i <= |t|
    ensures ReplaceAllFrom(t, i) == Splice(t, FindAllFrom(t, i), i)
    decreases |t| - i
  {
    if i < |t| {
      match MatchAt(t, i)
      case Some(m) =>
        ReplaceAllIsSplice(t, m.end);
        SpliceAtMatch(t, i, m);
      case None =>
        ReplaceAllIsSplice(t, i + 1);
        SpliceAtOther(t, i);
    }
  }

  /** Prepending `t[i]` to the slice that follows it. */
  lemma ConsSlice(t: string, i: nat, j: nat, r: string)
    requires i < j <= |t|
    ensures [t[i]] + (t[i + 1..j] + r) == t[i..j] + r
  {
    assert [t[i]] + t[i + 1..j] == t[i..j];
  }

  /** Text without a `$` is copied verbatim by the rewrite. */
  lemma {:induction false} CopiesUntilDollar(t: string, i: nat, j: nat)
    requires i <= j <= |t|
    requires NoDollarIn(t, i, j)
    ensures ReplaceAllFrom(t, i) == t[i..j] + ReplaceAllFrom(t, j)
    decreases j - i
  {
    if i < j {
      CopiesUntilDollar(t, i + 1, j);
      ConsSlice(t, i, j, ReplaceAllFrom(t, j));
    }
  }

  /** The search passes over text without a `$` without finding anything. */
  lemma {:induction false} SkipsUntilDollar(t: string, i: nat, j: nat)
    requires i <= j <= |t|
    requires NoDollarIn(t, i, j)
    ensures FindAllFrom(t, i) == FindAllFrom(t, j)
    decreases j
  {
    if i < j {
      SkipsUntilDollar(t, i, j - 1);
      SkipOne(t, j - 1, FindAllFrom(t, j));
    }
  }

  /** A character other than `$` adds nothing to the search from the next index. */
  lemma SkipOne(t: string, i: nat, rest: seq<Match>)
    requires i < |t| && t[i] != '$' && FindAllFrom(t, i + 1) == rest
    ensures FindAllFrom(t, i) == rest
  {
    FindAllAtOther(t, i);
  }

  /** The search passes over text without a `$` up to a match and records the match. */
  lemma SkipsThenFinds(t: string, i: nat, j: nat, e: nat, n: string)
    requires i <= j < |t|
    requires NoDollarIn(t, i, j)
    requires MatchAt(t, j) == Some(Match(j, e, n))
    ensures e <= |t|
    ensures FindAllFrom(t, i) == [Match(j, e, n)] + FindAllFrom(t, e)
  {
    SkipsUntilDollar(t, i, j);
    FindAllAtMatch(t, j, Match(j, e, n));
  }

  /** Text without a `$` up to a match is copied, and the match replaced. */
  lemma CopiesThenReplaces(t: string, i: nat, j: nat, e: nat, n: string)
    requires i <= j < |t|
    requires NoDollarIn(t, i, j)
    requires MatchAt(t, j) == Some(Match(j, e, n))
    ensures e <= |t|
    ensures ReplaceAllFrom(t, i) == t[i..j] + ("$Env:" + n + ReplaceAllFrom(t, e))
  {
    CopiesUntilDollar(t, i, j);
  }


  /** No `$` at any index of `t` in `[lo, hi)`. */
  predicate NoDollarIn(t: string, lo: int, hi: int)
  {
    forall k :: lo <= k < hi && 0 <= k < |t| ==> t[k] != '$'
  }

  /** No `$` anywhere in `s`. */
  predicate NoDollar(s: string)
  {
    NoDollarIn(s, 0, |s|)
  }

  /** `s` is a non-empty run of word characters. */
  predicate IsWord(s: string)
  {
    |s| > 0 && forall k :: 0 <= k < |s| ==> IsWordChar(s[k])
  }

  /** The characters of a slice are those of the string it equals. */
  lemma SliceIs(t: string, i: nat, p: string)
    requires i + |p| <= |t| && t[i..i + |p|] == p
    ensures forall k :: i <= k < i + |p| ==> t[k] == p[k - i]
  {
    forall k | i <= k < i + |p| ensures t[k] == p[k - i] {
      assert t[k] == t[i..i + |p|][k - i];
    }
  }

  /** Text `p` without `$` followed by `${n}`: `p` is copied and the reference becomes `$Env:n`. */
  lemma CopyThenBraced(t: string, i: nat, p: string, n: string)
    requires NoDollar(p) && IsWord(n)
    requires i + |p| + |n| + 3 <= |t|
    requires t[i..i + |p|] == p
    requires t[i + |p|] == '$' && t[i + |p| + 1] == '{' && t[i + |p| + 2 + |n|] == '}'
    requires t[i + |p| + 2..i + |p| + 2 + |n|] == n
    ensures ReplaceAllFrom(t, i) == p + ("$Env:" + n + ReplaceAllFrom(t, i + |p| + 3 + |n|))
  {
    var j := i + |p|;
    BracedAfter(t, i, p, n);
    CopiesThenReplaces(t, i, j, j + 3 + |n|, n);
  }

  /** Text `p` without `$` followed by `${n}`: the search passes over `p` and finds the reference. */
  lemma SkipThenBraced(t: string, i: nat, p: string, n: string)
    requires NoDollar(p) && IsWord(n)
    requires i + |p| + |n| + 3 <= |t|
    requires t[i..i + |p|] == p
    requires t[i + |p|] == '$' && t[i + |p| + 1] == '{' && t[i + |p| + 2 + |n|] == '}'
    requires t[i + |p| + 2..i + |p| + 2 + |n|] == n
    ensures FindAllFrom(t, i) == [Match(i + |p|, i + |p| + 3 + |n|, n)] + FindAllFrom(t, i + |p| + 3 + |n|)
  {
    var j := i + |p|;
    BracedAfter(t, i, p, n);
    SkipsThenFinds(t, i, j, j + 3 + |n|, n);
  }

  /** The facts `CopyThenBraced` needs about `t`, kept apart from the rewrite. */
  lemma BracedAfter(t: string, i: nat, p: string, n: string)
    requires NoDollar(p) && IsWord(n)
    requires i + |p| + |n| + 3 <= |t|
    requires t[i..i + |p|] == p
    requires t[i + |p|] == '$' && t[i + |p| + 1] == '{' && t[i + |p| + 2 + |n|] == '}'
    requires t[i + |p| + 2..i + |p| + 2 + |n|] == n
    ensures NoDollarIn(t, i, i + |p|)
    ensures MatchAt(t, i + |p|) == Some(Match(i + |p|, i + |p| + 3 + |n|, n))
  {
    SliceIs(t, i, p);
    SliceIs(t, i + |p| + 2, n);
    BracedReference(t, i + |p|, |n|);
  }


  /**
    Text `p` without `$` followed by `$n` and then neither a word character
    nor `}`: `p` is copied and the reference becomes `$Env:n`.
   */
  lemma CopyThenUnbraced(t: string, i: nat, p: string, n: string)
    requires NoDollar(p) && IsWord(n)
    requires i + |p| + |n| + 1 <= |t|
    requires t[i..i + |p|] == p
    requires t[i + |p|] == '$'
    requires t[i + |p| + 1..i + |p| + 1 + |n|] == n
    requires i + |p| + 1 + |n| == |t| || (!IsWordChar(t[i + |p| + 1 + |n|]) && t[i + |p| + 1 + |n|] != '}')
    ensures ReplaceAllFrom(t, i) == p + ("$Env:" + n + ReplaceAllFrom(t, i + |p| + 1 + |n|))
  {
    var j := i + |p|;
    UnbracedAfter(t, i, p, n);
    CopiesThenReplaces(t, i, j, j + 1 + |n|, n);
  }

  /** Text `p` without `$` followed by `$n`: the search passes over `p` and finds the reference. */
  lemma SkipThenUnbraced(t: string, i: nat, p: string, n: string)
    requires NoDollar(p) && IsWord(n)
    requires i + |p| + |n| + 1 <= |t|
    requires t[i..i + |p|] == p
    requires t[i + |p|] == '$'
    requires t[i + |p| + 1..i + |p| + 1 + |n|] == n
    requires i + |p| + 1 + |n| == |t| || (!IsWordChar(t[i + |p| + 1 + |n|]) && t[i + |p| + 1 + |n|] != '}')
    ensures FindAllFrom(t, i) == [Match(i + |p|, i + |p| + 1 + |n|, n)] + FindAllFrom(t, i + |p| + 1 + |n|)
  {
    var j := i + |p|;
    UnbracedAfter(t, i, p, n);
    SkipsThenFinds(t, i, j, j + 1 + |n|, n);
  }

  /** The facts `CopyThenUnbraced` needs about `t`, kept apart from the rewrite. */
  lemma UnbracedAfter(t: string, i: nat, p: string, n: string)
    requires NoDollar(p) && IsWord(n)
    requires i + |p| + |n| + 1 <= |t|
    requires t[i..i + |p|] == p
    requires t[i + |p|] == '$'
    requires t[i + |p| + 1..i + |p| + 1 + |n|] == n
    requires i + |p| + 1 + |n| == |t| || (!IsWordChar(t[i + |p| + 1 + |n|]) && t[i + |p| + 1 + |n|] != '}')
    ensures NoDollarIn(t, i, i + |p|)
    ensures MatchAt(t, i + |p|) == Some(Match(i + |p|, i + |p| + 1 + |n|, n))
  {
    SliceIs(t, i, p);
    SliceIs(t, i + |p| + 1, n);
    UnbracedReference(t, i + |p|, |n|);
  }


  /** The search finds nothing in a tail without `$`. */
  lemma SkipToEnd(t: string, i: nat)
    requires i <= |t| && NoDollar(t[i..])
    ensures FindAllFrom(t, i) == []
  {
    forall k | i <= k < |t| ensures t[k] != '$' {
      assert t[k] == t[i..][k - i];
    }
    SkipsUntilDollar(t, i, |t|);
  }

  /** A tail without `$` is copied to the end of the rewrite. */
  lemma CopyToEnd(t: string, i: nat)
    requires i <= |t| && NoDollar(t[i..])
    ensures ReplaceAllFrom(t, i) == t[i..]
  {
    forall k | i <= k < |t| ensures t[k] != '$' {
      assert t[k] == t[i..][k - i];
    }
    CopiesUntilDollar(t, i, |t|);
    assert t[i..|t|] + ReplaceAllFrom(t, |t|) == t[i..];
  }

  /** A template in which no `$` starts a reference is passed through unchanged. */
  lemma NoReferenceUnchanged(t: string)
    requires NoMatchIn(t, 0, |t|)
    ensures ToPowerShell(t) == t
  {
    LeftmostScanUnique(t, 0, []);
    ReplaceAllIsSplice(t, 0);
  }
}
