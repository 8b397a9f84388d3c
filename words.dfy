/**
 * PHP's `str_word_count` (format 0, no extra characters) as used to measure
 * recalled context. A word is a maximal run of letters (`isalpha` in the C
 * locale), apostrophes and hyphens, except that a leading `'` or `-` of the
 * whole string and a trailing `-` of the whole string are not counted.
 */
module WordCount {

  predicate IsWordChar(c: char)
  {
    'a' <= c <= 'z' || 'A' <= c <= 'Z' || c == '\'' || c == '-'
  }

  /** Number of maximal runs of word characters in s (each run is counted at its last character). */
  function CountRuns(s: string): (n: nat)
    ensures n <= |s|
    ensures (forall i :: 0 <= i < |s| ==> !IsWordChar(s[i])) ==> n == 0
    ensures (exists i :: 0 <= i < |s| && IsWordChar(s[i])) ==> n > 0
  {
    if s == [] then 0
    else (if IsWordChar(s[0]) && (|s| == 1 || !IsWordChar(s[1])) then 1 else 0) + CountRuns(s[1..])
  }

  /**
   * `str_word_count(s)`: never more words than characters, none in a text
   * without letters, `'` or `-`, and at least one when such a character stands
   * anywhere but at either end.
   */
  function StrWordCount(s: string): (n: nat)
    ensures n <= |s|
    ensures (forall i :: 0 <= i < |s| ==> !IsWordChar(s[i])) ==> n == 0
    ensures (exists i :: 0 < i < |s| - 1 && IsWordChar(s[i])) ==> n > 0
  {
    if s == [] then 0
    else
      var p := if s[0] == '\'' || s[0] == '-' then 1 else 0;
      var e := if s[|s| - 1] == '-' then |s| - 1 else |s|;
      if p < e then
        assert forall i :: 0 <= i < e - p ==> s[p..e][i] == s[p + i];
        CountRuns(s[p..e])
      else 0
  }

  /**
   * Words counted where they start, scanning left to right as the C loop of
   * `str_word_count` does; `inWord` says whether the character before s is part
   * of a word.
   */
  function CountStarts(inWord: bool, s: string): nat
    decreases |s|
  {
    if s == [] then 0
    else (if IsWordChar(s[0]) && !inWord then 1 else 0) + CountStarts(IsWordChar(s[0]), s[1..])
  }

  /** Counting runs at their last character and at their first character agree. */
  lemma {:induction false} CountRunsIsCountStarts(inWord: bool, s: string)
    ensures CountRuns(s) == CountStarts(inWord, s) + (if inWord && s != [] && IsWordChar(s[0]) then 1 else 0)
    decreases |s|
  {
    if s != [] {
      CountRunsIsCountStarts(IsWordChar(s[0]), s[1..]);
    }
  }

  /** Runs never merge across a character that cannot be part of a word. */
  lemma {:induction false} CountRunsAppend(a: string, b: string)
    requires a == [] || !IsWordChar(a[|a| - 1])
    ensures CountRuns(a + b) == CountRuns(a) + CountRuns(b)
  {
    if a == [] {
      assert a + b == b;
    } else {
      assert (a + b)[1..] == a[1..] + b;
      if |a| > 1 {
        assert a[1..][|a| - 2] == a[|a| - 1];
      }
      CountRunsAppend(a[1..], b);
    }
  }

  /** A string that neither starts with `'` or `-` nor ends with `-` is counted run by run, with nothing trimmed. */
  lemma StrWordCountPlain(s: string)
    requires s != [] && s[0] != '\'' && s[0] != '-' && s[|s| - 1] != '-'
    ensures StrWordCount(s) == CountRuns(s)
  {
    assert s[0..|s|] == s;
  }
}
