/**
 * String operations behind the two regular expressions and the
 * `split('.').pop()` of the registry's boot code.
 */
module Text {

  /**
   * ASCII lower-casing. A case-insensitive JavaScript regular expression
   * without the `u` flag never folds a non-ASCII character onto an ASCII one,
   * so for patterns made of ASCII characters this is exactly its notion of
   * "same letter".
   */
  function Lower(c: char): char {
    if 'A' <= c <= 'Z' then (c as int + 32) as char else c
  }

  /** `w` occurs in `s` at position `k`, ignoring ASCII case. */
  predicate MatchesAt(s: string, k: nat, w: string) {
    k + |w| <= |s| && forall j :: 0 <= j < |w| ==> Lower(s[k + j]) == Lower(w[j])
  }

  /** Scans `s` from position `k` for an occurrence of `w`, ignoring ASCII case. */
  function FindFrom(s: string, w: string, k: nat): (found: bool)
    requires |w| > 0
    ensures found <==> exists i :: k <= i && MatchesAt(s, i, w)
    decreases |s| - k
  {
    if k + |w| > |s| then
      assert forall i :: k <= i ==> !MatchesAt(s, i, w);
      false
    else
      MatchesAt(s, k, w) || FindFrom(s, w, k + 1)
  }

  /** What `/w/i.test(s)` answers for a pattern `w` without metacharacters. */
  predicate ContainsFolded(s: string, w: string)
    requires |w| > 0
  {
    FindFrom(s, w, 0)
  }

  /** An occurrence stays an occurrence when more text follows. */
  lemma ContainsFoldedExtend(s: string, t: string, w: string)
    requires |w| > 0
    requires ContainsFolded(s, w)
    ensures ContainsFolded(s + t, w)
  {
    var i :| 0 <= i && MatchesAt(s, i, w);
    assert MatchesAt(s + t, i, w);
  }

  /**
   * `s.split('.').pop()`: the text after the last '.', or all of `s` when it
   * has no '.'. The ensures characterise it: a '.'-free suffix of `s` that is
   * either all of `s` or preceded by a '.'.
   */
  function LastSegment(s: string): (r: string)
    ensures '.' !in r
    ensures |r| <= |s| && r == s[|s| - |r|..]
    ensures |r| < |s| ==> s[|s| - |r| - 1] == '.'
  {
    if s == [] then []
    else if s[|s| - 1] == '.' then []
    else LastSegment(s[..|s| - 1]) + [s[|s| - 1]]
  }

  /** The ensures of LastSegment determine its result. */
  lemma LastSegmentUnique(s: string, r: string)
    requires '.' !in r
    requires |r| <= |s| && r == s[|s| - |r|..]
    requires |r| < |s| ==> s[|s| - |r| - 1] == '.'
    ensures r == LastSegment(s)
  {
  }

  /**
   * The last segment is a given '.'-free word exactly when the string is
   * that word or ends in '.' followed by it.
   */
  lemma {:induction false} LastSegmentIs(s: string, ext: string)
    requires '.' !in ext
    ensures LastSegment(s) == ext <==> s == ext || EndsWith(s, "." + ext)
  {
    if LastSegment(s) == ext {
      LastSegmentShape(s);
    }
    if s == ext {
      LastSegmentUnique(s, ext);
    } else if EndsWith(s, "." + ext) {
      var k := |s| - |ext|;
      assert s[k..] == ("." + ext)[1..];
      assert s[k - 1] == ("." + ext)[0];
      LastSegmentUnique(s, ext);
    }
  }

  /** The last segment is the whole string or follows a '.'. */
  lemma LastSegmentShape(s: string)
    ensures var r := LastSegment(s); s == r || EndsWith(s, "." + r)
  {
    var r := LastSegment(s);
    if |r| < |s| {
      assert s[|s| - |r| - 1..] == [s[|s| - |r| - 1]] + s[|s| - |r|..];
    }
  }

  predicate EndsWith(s: string, suffix: string) {
    |suffix| <= |s| && s[|s| - |suffix|..] == suffix
  }
}
