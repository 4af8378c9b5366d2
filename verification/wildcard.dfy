/** One concrete reading of the framework's `str_is(pattern, value)`: the
    pattern matches the whole value, `*` matches any run of characters and every
    other character matches only itself, with no case folding. */
module Wildcard {

  function Matches(pattern: string, value: string): bool
    decreases |pattern| + |value|
  {
    if |pattern| == 0 then
      |value| == 0
    else if pattern[0] == '*' then
      Matches(pattern[1..], value) || (|value| > 0 && Matches(pattern, value[1..]))
    else
      |value| > 0 && pattern[0] == value[0] && Matches(pattern[1..], value[1..])
  }

  /** A pattern without `*` matches exactly the value equal to it. */
  lemma {:induction false} LiteralPatternMatchesOnlyItself(pattern: string, value: string)
    requires '*' !in pattern
    ensures Matches(pattern, value) <==> pattern == value
    decreases |pattern|
  {
    if |pattern| == 0 {
    } else {
      assert pattern[0] != '*';
      assert '*' !in pattern[1..] by {
        forall i | 0 <= i < |pattern[1..]| ensures pattern[1..][i] != '*' {
          assert pattern[1..][i] == pattern[i + 1];
        }
      }
      if |value| > 0 {
        LiteralPatternMatchesOnlyItself(pattern[1..], value[1..]);
        if pattern == value {
          assert pattern[1..] == value[1..];
        }
        if pattern[0] == value[0] && pattern[1..] == value[1..] {
          assert pattern == [pattern[0]] + pattern[1..];
          assert value == [value[0]] + value[1..];
        }
      }
    }
  }

  /** Every pattern matches itself, wildcards included. */
  lemma {:induction false} MatchesItself(pattern: string)
    ensures Matches(pattern, pattern)
    decreases |pattern|
  {
    if |pattern| > 0 {
      MatchesItself(pattern[1..]);
      if pattern[0] == '*' {
        assert Matches(pattern, pattern[1..]);
      }
    }
  }

  /** The operator `in` selects the membership test, and so do wildcard
      spellings; `In` and `IN` do not, the match being case-sensitive. */
  lemma InOperatorSpellings()
    ensures Matches("in", "in")
    ensures Matches("*", "in") && Matches("i*", "in")
    ensures !Matches("In", "in") && !Matches("IN", "in")
    ensures !Matches("=", "in")
  {
    MatchesItself("in");
    assert Matches("n", "n");
    assert Matches("*", "n");
    assert Matches("*", "");
  }
}
