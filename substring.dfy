/** Substring search on strings, as Rust's `str::contains` with a string
    pattern performs it: a case-sensitive, exact match of the pattern at
    some position of the haystack. */
module Substring {

  /** `pattern` occurs in `s` starting at index `i`. */
  ghost predicate OccursAt(s: string, pattern: string, i: int)
  {
    0 <= i <= |s| - |pattern| && s[i..i + |pattern|] == pattern
  }

  /** Whether `pattern` occurs anywhere in `s`, scanning from the left. */
  function Contains(s: string, pattern: string): (r: bool)
    ensures r <==> exists i :: OccursAt(s, pattern, i)
    decreases |s|
  {
    if |s| < |pattern| then
      false
    else if s[..|pattern|] == pattern then
      assert OccursAt(s, pattern, 0);
      true
    else
      var r := Contains(s[1..], pattern);
      assert forall i :: OccursAt(s[1..], pattern, i) <==> OccursAt(s, pattern, i + 1) by {
        forall i ensures OccursAt(s[1..], pattern, i) <==> OccursAt(s, pattern, i + 1) {
          if 0 <= i <= |s| - 1 - |pattern| {
            assert s[1..][i..i + |pattern|] == s[i + 1..i + 1 + |pattern|];
          }
        }
      }
      assert r ==> exists i :: OccursAt(s, pattern, i) by {
        if r {
          var i :| OccursAt(s[1..], pattern, i);
          assert OccursAt(s, pattern, i + 1);
        }
      }
      assert (exists i :: OccursAt(s, pattern, i)) ==> r by {
        if exists i :: OccursAt(s, pattern, i) {
          var i :| OccursAt(s, pattern, i);
          assert i != 0;
          assert OccursAt(s[1..], pattern, i - 1);
        }
      }
      r
  }

  /** The pattern is found wherever it is embedded, whatever surrounds it. */
  lemma ContainsEmbedded(before: string, pattern: string, after: string)
    ensures Contains(before + pattern + after, pattern)
  {
    var s := before + pattern + after;
    assert s[|before|..|before| + |pattern|] == pattern;
    assert OccursAt(s, pattern, |before|);
  }

  /** A pattern whose first character does not appear in `s` is not found. */
  lemma NotContainsWithoutFirstChar(s: string, pattern: string)
    requires |pattern| > 0
    requires forall k :: 0 <= k < |s| ==> s[k] != pattern[0]
    ensures !Contains(s, pattern)
  {
    forall i | 0 <= i <= |s| - |pattern| ensures !OccursAt(s, pattern, i) {
      assert s[i..i + |pattern|][0] == s[i] != pattern[0];
    }
  }
}
