/** Strings as sequences of characters, with the two string helpers the
    repository factory relies on: "ends with" and "contains". */
module Strings {

  predicate StartsWith(s: string, prefix: string) {
    |prefix| <= |s| && s[..|prefix|] == prefix
  }

  predicate EndsWith(s: string, suffix: string) {
    |suffix| <= |s| && s[|s| - |suffix|..] == suffix
  }

  /** The part of `s` in front of a suffix it is known to end with. */
  function StripSuffix(s: string, suffix: string): (r: string)
    requires EndsWith(s, suffix)
    ensures r + suffix == s
    ensures |r| == |s| - |suffix|
  {
    s[..|s| - |suffix|]
  }

  /** Appending a suffix produces a string that ends with it and still starts
      with the original. */
  lemma ConcatEndsWith(p: string, suffix: string)
    ensures EndsWith(p + suffix, suffix)
    ensures StartsWith(p + suffix, p)
  {
    assert (p + suffix)[|p|..] == suffix;
    assert (p + suffix)[..|p|] == p;
  }

  /** Stripping a suffix that was just appended gives the original back. */
  lemma StripConcat(p: string, suffix: string)
    ensures EndsWith(p + suffix, suffix)
    ensures StripSuffix(p + suffix, suffix) == p
  {
    ConcatEndsWith(p, suffix);
    assert (p + suffix)[..|p|] == p;
  }

  /** A character occurring in either half occurs in the concatenation, and
      only then. */
  lemma ConcatContains(a: string, b: string, c: char)
    ensures c in a + b <==> c in a || c in b
  {
    if c in a + b {
      var i :| 0 <= i < |a + b| && (a + b)[i] == c;
      if i < |a| {
        assert a[i] == c;
      } else {
        assert b[i - |a|] == c;
      }
    }
    if c in a {
      var i :| 0 <= i < |a| && a[i] == c;
      assert (a + b)[i] == c;
    }
    if c in b {
      var i :| 0 <= i < |b| && b[i] == c;
      assert (a + b)[|a| + i] == c;
    }
  }
}
