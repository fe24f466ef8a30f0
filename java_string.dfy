/**
 * The parts of java.lang.String that the path helper relies on: `startsWith`,
 * `substring` (a sequence slice `s[k..]`, so it needs no function of its own),
 * and `replaceAll` with a pattern that has no regular expression
 * metacharacters and a replacement without `$` or `\`, which then behaves as
 * a literal, leftmost, non-overlapping search-and-replace. (Java reads `$` in
 * a replacement as a group reference and `\` as an escape; the helper passes
 * neither.) The helper calls no `contains` or `indexOf`; `Occurs` is only the
 * specification the replacement is measured against.
 */
module JavaString {

  /** `pat` occurs in `s` starting at index `i`. */
  predicate MatchAt(s: string, pat: string, i: nat)
  {
    i + |pat| <= |s| && s[i..i + |pat|] == pat
  }

  /**
   * `String.startsWith`: `s` is `prefix` followed by the rest of `s`, which is
   * what `s.substring(prefix.length())` then returns.
   */
  predicate StartsWith(s: string, prefix: string)
    ensures StartsWith(s, prefix) <==> |prefix| <= |s| && prefix + s[|prefix|..] == s
  {
    assert |prefix| <= |s| ==> s[..|prefix|] + s[|prefix|..] == s;

    MatchAt(s, prefix, 0)
  }

  /** Specification: `pat` occurs somewhere in `s`. */
  predicate Occurs(s: string, pat: string)
  {
    exists i: nat | i <= |s| :: MatchAt(s, pat, i)
  }

  /**
   * The number of matches that a left-to-right scan finds when it resumes
   * after each match (so matches never overlap).
   */
  function CountMatches(s: string, pat: string): (n: nat)
    requires pat != []
    ensures n * |pat| <= |s|
    decreases |s|
  {
    if s == [] then 0
    else if StartsWith(s, pat) then
      var n' := CountMatches(s[|pat|..], pat);
      assert (n' + 1) * |pat| == n' * |pat| + |pat|;
      n' + 1
    else CountMatches(s[1..], pat)
  }

  /**
   * `s.replaceAll(pat, rep)` for a literal `pat` and a `rep` free of `$` and
   * `\`, which Java would otherwise interpret: scanning from the left, each
   * match is replaced by `rep` and the scan resumes after it; a character that
   * does not start a match is copied. Every match removes `|pat|` characters
   * and adds `|rep|`.
   */
  function ReplaceAll(s: string, pat: string, rep: string): (r: string)
    requires pat != []
    ensures |r| + |pat| * CountMatches(s, pat) == |s| + |rep| * CountMatches(s, pat)
    decreases |s|
  {
    if s == [] then []
    else if StartsWith(s, pat) then
      var n' := CountMatches(s[|pat|..], pat);
      assert |pat| * (n' + 1) == |pat| * n' + |pat|;
      assert |rep| * (n' + 1) == |rep| * n' + |rep|;
      rep + ReplaceAll(s[|pat|..], pat, rep)
    else [s[0]] + ReplaceAll(s[1..], pat, rep)
  }

  /** An occurrence in a suffix is an occurrence in the whole string. */
  lemma OccursInSuffix(s: string, pat: string, k: nat, i: nat)
    requires k <= |s| && MatchAt(s[k..], pat, i)
    ensures MatchAt(s, pat, k + i) && Occurs(s, pat)
  {
    assert s[k..][i..i + |pat|] == s[k + i..k + i + |pat|];
    assert MatchAt(s, pat, k + i);
    assert k + i <= |s|;
  }

  /** An occurrence that is not at the front is an occurrence in the tail. */
  lemma OccursInTail(s: string, pat: string, i: nat)
    requires MatchAt(s, pat, i) && i > 0
    ensures MatchAt(s[1..], pat, i - 1)
  {
    assert s[1..][i - 1..i - 1 + |pat|] == s[i..i + |pat|];
  }

  /** The scan counts a match exactly when the pattern occurs at all. */
  lemma {:induction false} CountMatchesPositiveIffOccurs(s: string, pat: string)
    requires pat != []
    ensures CountMatches(s, pat) > 0 <==> Occurs(s, pat)
    decreases |s|
  {
    if s == [] {
      assert !Occurs(s, pat) by {
        forall i: nat ensures !MatchAt(s, pat, i) {}
      }
    } else if StartsWith(s, pat) {
      assert MatchAt(s, pat, 0);
    } else {
      CountMatchesPositiveIffOccurs(s[1..], pat);
      if Occurs(s, pat) {
        var i: nat :| i <= |s| && MatchAt(s, pat, i);
        OccursInTail(s, pat, i);
      }
      if Occurs(s[1..], pat) {
        var i: nat :| MatchAt(s[1..], pat, i);
        OccursInSuffix(s, pat, 1, i);
      }
    }
  }

  /** Without an occurrence of the pattern, `replaceAll` returns its input. */
  lemma {:induction false} ReplaceAllNoMatch(s: string, pat: string, rep: string)
    requires pat != [] && !Occurs(s, pat)
    ensures ReplaceAll(s, pat, rep) == s
    decreases |s|
  {
    if s != [] {
      assert !MatchAt(s, pat, 0);
      if Occurs(s[1..], pat) {
        var i: nat :| MatchAt(s[1..], pat, i);
        OccursInSuffix(s, pat, 1, i);
      }
      ReplaceAllNoMatch(s[1..], pat, rep);
      assert [s[0]] + s[1..] == s;
    }
  }

  /**
   * When the replacement differs in length from the pattern, `replaceAll`
   * returns its input exactly when the pattern does not occur in it.
   */
  lemma ReplaceAllIdentityIff(s: string, pat: string, rep: string)
    requires pat != [] && |rep| != |pat|
    ensures ReplaceAll(s, pat, rep) == s <==> !Occurs(s, pat)
  {
    CountMatchesPositiveIffOccurs(s, pat);
    if !Occurs(s, pat) {
      ReplaceAllNoMatch(s, pat, rep);
    } else {
      var n := CountMatches(s, pat);
      assert |ReplaceAll(s, pat, rep)| + |pat| * n == |s| + |rep| * n;
      MultiplyDistinct(|pat|, |rep|, n);
    }
  }

  /** Distinct factors give distinct products with a positive `n`. */
  lemma MultiplyDistinct(a: nat, b: nat, n: nat)
    requires a != b && n > 0
    ensures a * n != b * n
  {
    if a < b {
      assert a * n < b * n;
    } else {
      assert b * n < a * n;
    }
  }

  /** A match at the front is replaced and the scan resumes right after it. */
  lemma ReplaceAllLeadingMatch(pat: string, t: string, rep: string)
    requires pat != []
    ensures ReplaceAll(pat + t, pat, rep) == rep + ReplaceAll(t, pat, rep)
  {
    assert (pat + t)[..|pat|] == pat;
    assert (pat + t)[|pat|..] == t;
  }

  /** One differing character rules out a match. */
  lemma MismatchAt(s: string, pat: string, i: nat, k: nat)
    requires k < |pat| && i + k < |s| && s[i + k] != pat[k]
    ensures !MatchAt(s, pat, i)
  {
    if i + |pat| <= |s| {
      assert s[i..i + |pat|][k] == s[i + k];
    }
  }

  /**
   * A stretch `u` in which no match starts is copied unchanged, and the scan
   * carries on at its end.
   */
  lemma {:induction false} ReplaceAllUnmatchedPrefix(u: string, v: string, pat: string, rep: string)
    requires pat != []
    requires forall i: nat | i < |u| :: !MatchAt(u + v, pat, i)
    ensures ReplaceAll(u + v, pat, rep) == u + ReplaceAll(v, pat, rep)
    decreases |u|
  {
    if u == [] {
      assert u + v == v;
    } else {
      var t := u[1..] + v;
      assert u + v == [u[0]] + t;
      assert !MatchAt(u + v, pat, 0);
      forall i: nat | i < |u[1..]| ensures !MatchAt(t, pat, i) {
        if MatchAt(t, pat, i) {
          assert ([u[0]] + t)[1..] == t;
          OccursInSuffix([u[0]] + t, pat, 1, i);
        }
      }
      ReplaceAllLeadingChar(u[0], t, pat, rep);
      ReplaceAllUnmatchedPrefix(u[1..], v, pat, rep);
      var w := ReplaceAll(v, pat, rep);
      assert [u[0]] + (u[1..] + w) == ([u[0]] + u[1..]) + w;
      assert [u[0]] + u[1..] == u;
    }
  }

  /** A character that does not start a match is copied to the output. */
  lemma ReplaceAllLeadingChar(c: char, t: string, pat: string, rep: string)
    requires pat != [] && !StartsWith([c] + t, pat)
    ensures ReplaceAll([c] + t, pat, rep) == [c] + ReplaceAll(t, pat, rep)
  {
    assert ([c] + t)[1..] == t;
  }
}
