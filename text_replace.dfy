/** Literal, global string substitution as JavaScript performs it for
    `s.replace(/pat/g, rep)` when `pat` has no regular-expression operators
    and `rep` holds no `$` replacement patterns: the string is scanned left
    to right, every match is replaced, and scanning resumes after the end of
    the match, so matches never overlap and replaced text is never rescanned. */
module TextReplace {

  /** `pat` occurs in `s` starting at index `i`. */
  predicate OccursAt(s: string, pat: string, i: int)
  {
    0 <= i && i + |pat| <= |s| && s[i..i + |pat|] == pat
  }

  /** `pat` occurs somewhere in `s`. */
  predicate Contains(s: string, pat: string)
  {
    exists i | 0 <= i <= |s| - |pat| :: OccursAt(s, pat, i)
  }

  /** Replaces every non-overlapping occurrence of `pat`, leftmost first.
      A replacement no longer than the pattern never lengthens the text. */
  function ReplaceAll(s: string, pat: string, rep: string): (r: string)
    requires |pat| > 0
    ensures |rep| <= |pat| ==> |r| <= |s|
    decreases |s|
  {
    if |s| < |pat| then s
    else if OccursAt(s, pat, 0) then rep + ReplaceAll(s[|pat|..], pat, rep)
    else [s[0]] + ReplaceAll(s[1..], pat, rep)
  }

  /** Index of the first occurrence of `pat` in `s`, searching from the left,
      or `|s|` when there is none. */
  function IndexOf(s: string, pat: string): (i: nat)
    requires |pat| > 0
    ensures i <= |s|
    ensures i < |s| <==> Contains(s, pat)
    ensures i < |s| ==> OccursAt(s, pat, i)
    ensures forall j :: 0 <= j < i ==> !OccursAt(s, pat, j)
    decreases |s|
  {
    if |s| < |pat| then
      assert !Contains(s, pat);
      |s|
    else if OccursAt(s, pat, 0) then
      0
    else
      var k := IndexOf(s[1..], pat);
      forall j | 1 <= j <= k + 1 ensures OccursAt(s, pat, j) <==> OccursAt(s[1..], pat, j - 1) {
        ShiftOccurs(s, pat, j);
      }
      if k < |s[1..]| then
        assert OccursAt(s, pat, 1 + k);
        1 + k
      else
        forall j ensures !OccursAt(s, pat, j) {
          if 1 <= j <= |s| { ShiftOccurs(s, pat, j); }
        }
        |s|
  }

  /** An occurrence in `s` at `j >= 1` is an occurrence in `s[1..]` at `j - 1`. */
  lemma ShiftOccurs(s: string, pat: string, j: int)
    requires 1 <= j && |s| >= 1
    ensures OccursAt(s, pat, j) <==> OccursAt(s[1..], pat, j - 1)
  {
    if j + |pat| <= |s| {
      assert s[1..][j - 1..j - 1 + |pat|] == s[j..j + |pat|];
    }
  }

  /** A pattern that does not occur leaves the string unchanged. */
  lemma {:induction false} ReplaceAllAbsent(s: string, pat: string, rep: string)
    requires |pat| > 0
    requires !Contains(s, pat)
    ensures ReplaceAll(s, pat, rep) == s
    decreases |s|
  {
    if |s| >= |pat| {
      assert !OccursAt(s, pat, 0);
      var t := s[1..];
      forall j | 0 <= j <= |t| - |pat| ensures !OccursAt(t, pat, j) {
        ShiftOccurs(s, pat, j + 1);
      }
      ReplaceAllAbsent(t, pat, rep);
    }
  }

  /** A front character that starts no match is copied. */
  lemma ReplaceAllCopyFront(s: string, pat: string, rep: string)
    requires |pat| > 0 && |s| > 0
    requires !OccursAt(s, pat, 0)
    ensures ReplaceAll(s, pat, rep) == [s[0]] + ReplaceAll(s[1..], pat, rep)
  {
    if |s| < |pat| {
      assert ReplaceAll(s[1..], pat, rep) == s[1..];
    }
  }

  /** A prefix in which no match starts is copied unchanged. */
  lemma {:induction false} ReplaceAllCopyPrefix(s: string, pat: string, rep: string, i: nat)
    requires |pat| > 0 && i <= |s|
    requires forall j :: 0 <= j < i ==> !OccursAt(s, pat, j)
    ensures ReplaceAll(s, pat, rep) == s[..i] + ReplaceAll(s[i..], pat, rep)
    decreases i
  {
    if i == 0 {
      assert s[..i] == [] && s[i..] == s;
    } else {
      var t := s[1..];
      ReplaceAllCopyFront(s, pat, rep);
      NoMatchShift(s, pat, i);
      ReplaceAllCopyPrefix(t, pat, rep, i - 1);
      DropFront(s, i);
      PrefixJoin(s, i, ReplaceAll(s[i..], pat, rep));
    }
  }

  /** No match below `i` in `s` means none below `i - 1` in `s[1..]`. */
  lemma NoMatchShift(s: string, pat: string, i: nat)
    requires 0 < i <= |s|
    requires forall j :: 0 <= j < i ==> !OccursAt(s, pat, j)
    ensures forall j :: 0 <= j < i - 1 ==> !OccursAt(s[1..], pat, j)
  {
    forall j | 0 <= j < i - 1 ensures !OccursAt(s[1..], pat, j) {
      ShiftOccurs(s, pat, j + 1);
    }
  }

  /** The first character, then the rest of the prefix, then `x`. */
  lemma PrefixJoin(s: string, i: nat, x: string)
    requires 0 < i <= |s|
    ensures [s[0]] + (s[1..][..i - 1] + x) == s[..i] + x
  {
    DropFront(s, i);
  }

  /** Splitting `s` after its first character and again at `i`. */
  lemma DropFront(s: string, i: nat)
    requires 0 < i <= |s|
    ensures s[1..][i - 1..] == s[i..]
    ensures s[..i] == [s[0]] + s[1..][..i - 1]
  {
  }

  /** The replacement, restated as the scan the ECMAScript specification
      describes: find the first match, at `i`, emit what precedes it followed
      by the replacement, and continue after the match. */
  lemma ReplaceAllAtFirst(s: string, pat: string, rep: string, i: nat)
    requires |pat| > 0
    requires Contains(s, pat) && i == IndexOf(s, pat)
    ensures i + |pat| <= |s|
    ensures ReplaceAll(s, pat, rep) == s[..i] + rep + ReplaceAll(s[i + |pat|..], pat, rep)
  {
    FirstMatch(s, pat);
    ReplaceAllFirstAt(s, pat, rep, i);
  }

  /** The first match `IndexOf` finds, and no match before it. */
  lemma FirstMatch(s: string, pat: string)
    requires |pat| > 0
    requires Contains(s, pat)
    ensures OccursAt(s, pat, IndexOf(s, pat))
    ensures forall j :: 0 <= j < IndexOf(s, pat) ==> !OccursAt(s, pat, j)
  {
  }

  /** The same, for any match `i` with no match before it. */
  lemma ReplaceAllFirstAt(s: string, pat: string, rep: string, i: nat)
    requires |pat| > 0
    requires OccursAt(s, pat, i)
    requires forall j :: 0 <= j < i ==> !OccursAt(s, pat, j)
    ensures ReplaceAll(s, pat, rep) == s[..i] + rep + ReplaceAll(s[i + |pat|..], pat, rep)
  {
    ReplaceAllCopyPrefix(s, pat, rep, i);
    SplitAtMatch(s, pat, i);
    HitAfterPrefix(s, s[..i], s[i..], s[i + |pat|..], pat, rep);
  }

  /** A copied prefix followed by a match at the front of the remainder. */
  lemma HitAfterPrefix(s: string, prefix: string, u: string, rest: string, pat: string, rep: string)
    requires |pat| > 0
    requires ReplaceAll(s, pat, rep) == prefix + ReplaceAll(u, pat, rep)
    requires u == pat + rest
    ensures ReplaceAll(s, pat, rep) == prefix + rep + ReplaceAll(rest, pat, rep)
  {
    ReplaceAllHit(pat, rep, rest);
  }

  /** The text from a match onwards is the pattern followed by the rest. */
  lemma SplitAtMatch(s: string, pat: string, i: nat)
    requires OccursAt(s, pat, i)
    ensures s[i..] == pat + s[i + |pat|..]
  {
    assert s[i..][..|pat|] == pat;
  }

  /** An occurrence of the pattern at the front is replaced. */
  lemma ReplaceAllHit(pat: string, rep: string, rest: string)
    requires |pat| > 0
    ensures ReplaceAll(pat + rest, pat, rep) == rep + ReplaceAll(rest, pat, rep)
  {
    var s := pat + rest;
    assert s[..|pat|] == pat && s[|pat|..] == rest;
    assert OccursAt(s, pat, 0);
  }

  /** A prefix without the pattern's first character is copied unchanged. */
  lemma {:induction false} ReplaceAllFree(u: string, rest: string, pat: string, rep: string)
    requires |pat| > 0
    requires pat[0] !in u
    ensures ReplaceAll(u + rest, pat, rep) == u + ReplaceAll(rest, pat, rep)
    decreases |u|
  {
    if |u| > 0 {
      var s := u + rest;
      assert s[0] == u[0];
      assert !OccursAt(s, pat, 0);
      assert s[1..] == u[1..] + rest;
      ReplaceAllFree(u[1..], rest, pat, rep);
      if |s| < |pat| {
        assert ReplaceAll(rest, pat, rep) == rest;
        assert ReplaceAll(u[1..] + rest, pat, rep) == u[1..] + rest;
      }
    } else {
      assert u + rest == rest;
    }
  }

  /** A front character whose continuation differs from the pattern at
      offset `k` starts no match, so it is copied. */
  lemma ReplaceAllMiss(s: string, pat: string, rep: string, k: nat)
    requires 0 < k < |pat| && k < |s|
    requires s[k] != pat[k]
    ensures ReplaceAll(s, pat, rep) == [s[0]] + ReplaceAll(s[1..], pat, rep)
  {
    if |s| >= |pat| {
      assert !OccursAt(s, pat, 0);
    } else {
      ReplaceAllAbsent(s[1..], pat, rep);
    }
  }

  /** A string lacking one of the pattern's characters does not contain it. */
  lemma AbsentCharNotContained(s: string, pat: string, k: nat)
    requires k < |pat|
    requires pat[k] !in s
    ensures !Contains(s, pat)
  {
    forall i | 0 <= i <= |s| - |pat| ensures !OccursAt(s, pat, i) {
      assert s[i + k] in s;
      assert s[i..i + |pat|][k] == s[i + k];
    }
  }

  /** A string lacking one of the pattern's characters is left unchanged. */
  lemma ReplaceAllAbsentChar(s: string, pat: string, rep: string, k: nat)
    requires k < |pat|
    requires pat[k] !in s
    ensures ReplaceAll(s, pat, rep) == s
  {
    AbsentCharNotContained(s, pat, k);
    ReplaceAllAbsent(s, pat, rep);
  }

  /** Removing a pattern that occurs makes the text strictly shorter, so a
      removal that leaves the text unchanged shows the pattern is absent. */
  lemma ReplaceAllRemoveShortens(s: string, pat: string)
    requires |pat| > 0
    ensures Contains(s, pat) ==> |ReplaceAll(s, pat, "")| < |s|
  {
    if Contains(s, pat) {
      var i := IndexOf(s, pat);
      ReplaceAllAtFirst(s, pat, "", i);
    }
  }

  /** The only occurrence of the pattern, between `a` and `b`, is replaced
      when no other occurrence can start in `a` or in `b`. */
  lemma ReplaceAllSplice(a: string, pat: string, rep: string, b: string)
    requires |pat| > 0 && |a| > 0
    requires !OccursAt(a + pat + b, pat, 0)
    requires pat[0] !in a[1..] && pat[0] !in b
    ensures ReplaceAll(a + pat + b, pat, rep) == a + rep + b
  {
    var s := a + pat + b;
    ReplaceAllCopyFront(s, pat, rep);
    var a1 := a[1..];
    DropFrontAssoc(a, pat, b);
    ReplaceAllFree(a1, pat + b, pat, rep);
    ReplaceAllSpliceTail(pat, rep, b);
    ConsAssoc(a, rep, b);
  }

  /** The pattern followed by text without its first character. */
  lemma ReplaceAllSpliceTail(pat: string, rep: string, b: string)
    requires |pat| > 0
    requires pat[0] !in b
    ensures ReplaceAll(pat + b, pat, rep) == rep + b
  {
    ReplaceAllHit(pat, rep, b);
    assert b + [] == b;
    ReplaceAllFree(b, [], pat, rep);
  }

  lemma DropFrontAssoc(a: string, pat: string, b: string)
    requires |a| > 0
    ensures (a + pat + b)[1..] == a[1..] + (pat + b)
  {
  }

  lemma ConsAssoc(a: string, rep: string, b: string)
    requires |a| > 0
    ensures [a[0]] + (a[1..] + (rep + b)) == a + rep + b
  {
    assert a == [a[0]] + a[1..];
  }
}
