/**
  The string comparisons the controller makes on Home Assistant states:
  str.upper() followed by equality.
 */
module Text {

  /** Upper-casing of one character; only the ASCII letters a-z change. */
  function UpperChar(c: char): char {
    if 'a' <= c <= 'z' then (c as int - 32) as char else c
  }

  /** str.upper() on the ASCII range. */
  function Upper(s: string): (r: string)
    ensures |r| == |s|
  {
    if |s| == 0 then "" else [UpperChar(s[0])] + Upper(s[1..])
  }

  /** Case-insensitive equality of one character against an upper-case letter. */
  predicate MatchesLetter(c: char, upper: char)
    requires 'A' <= upper <= 'Z'
  {
    c == upper || c as int == upper as int + 32
  }

  /**
    Comparing upper-cased text against an upper-case ASCII word accepts
    exactly the spellings of that word in any mix of cases, and nothing else.
   */
  lemma {:induction false} UpperEqualsWord(s: string, word: string)
    requires forall i :: 0 <= i < |word| ==> 'A' <= word[i] <= 'Z'
    ensures Upper(s) == word <==>
      |s| == |word| && forall i :: 0 <= i < |s| ==> MatchesLetter(s[i], word[i])
  {
    if |s| == 0 || |word| == 0 {
    } else {
      UpperEqualsWord(s[1..], word[1..]);
      assert Upper(s) == [UpperChar(s[0])] + Upper(s[1..]);
      if |s| == |word| && forall i :: 0 <= i < |s| ==> MatchesLetter(s[i], word[i]) {
        assert forall i :: 0 <= i < |s[1..]| ==> MatchesLetter(s[1..][i], word[1..][i]) by {
          forall i | 0 <= i < |s[1..]| ensures MatchesLetter(s[1..][i], word[1..][i]) {
            assert s[1..][i] == s[i + 1] && word[1..][i] == word[i + 1];
          }
        }
        assert word == [word[0]] + word[1..];
      }
      if Upper(s) == word {
        assert UpperChar(s[0]) == word[0];
        assert Upper(s[1..]) == word[1..];
        forall i | 0 <= i < |s| ensures MatchesLetter(s[i], word[i]) {
          if i > 0 {
            assert s[1..][i - 1] == s[i] && word[1..][i - 1] == word[i];
          }
        }
      }
    }
  }
}
