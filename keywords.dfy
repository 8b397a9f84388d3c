/**
 * The keyword normaliser of MemoryManager::extractEntities: lower-case the text,
 * split it on whitespace and `,.?!`, drop repeated words, then drop stop-words and
 * words of three characters or fewer.
 *
 * PHP strings are byte strings; here each `char` stands for one byte, so `|w|`
 * is PHP's `strlen`.
 */
module Keywords {
  import opened Seqs

  /** The separators of the split pattern `[\s,\.\?\!]+`: PCRE's `\s` (space, tab,
      line feed, vertical tab, form feed, carriage return) and the four punctuation marks. */
  predicate IsDelimiter(c: char)
  {
    c == ' ' || c == '\t' || c == '\n' || c == '\U{000B}' || c == '\U{000C}' || c == '\r'
    || c == ',' || c == '.' || c == '?' || c == '!'
  }

  predicate NoDelimiter(w: string)
  {
    forall i :: 0 <= i < |w| ==> !IsDelimiter(w[i])
  }

  predicate IsUpper(c: char)
  {
    'A' <= c <= 'Z'
  }

  /** No ASCII capital letter occurs in s. */
  predicate IsLower(s: string)
  {
    forall i :: 0 <= i < |s| ==> !IsUpper(s[i])
  }

  /** `strtolower` on one byte: only `A`..`Z` change. */
  function LowerChar(c: char): (d: char)
    ensures !IsUpper(d)
    ensures IsDelimiter(d) == IsDelimiter(c)
    ensures !IsUpper(c) ==> d == c
  {
    if IsUpper(c) then (c as int + 32) as char else c
  }

  /** `strtolower`. */
  function Lower(s: string): (r: string)
    ensures |r| == |s| && IsLower(r)
    ensures forall i :: 0 <= i < |s| ==> r[i] == LowerChar(s[i])
  {
    seq(|s|, i requires 0 <= i < |s| => LowerChar(s[i]))
  }

  /** Lower-casing a lower-case string changes nothing. */
  lemma LowerOfLower(s: string)
    requires IsLower(s)
    ensures Lower(s) == s
  {
  }

  /** Index of the first separator of s, or |s| when there is none. */
  function FirstDelimiter(s: string): (i: nat)
    ensures i <= |s|
    ensures NoDelimiter(s[..i])
    ensures i < |s| ==> IsDelimiter(s[i])
  {
    if s == [] || IsDelimiter(s[0]) then 0
    else
      var i := 1 + FirstDelimiter(s[1..]);
      assert s[..i] == [s[0]] + s[1..][..i - 1];
      i
  }

  /** End of the run of separators that starts at i. */
  function SkipDelimiters(s: string, i: nat): (j: nat)
    requires i <= |s|
    ensures i <= j <= |s|
    ensures forall k :: i <= k < j ==> IsDelimiter(s[k])
    ensures j < |s| ==> !IsDelimiter(s[j])
    decreases |s| - i
  {
    if i < |s| && IsDelimiter(s[i]) then SkipDelimiters(s, i + 1) else i
  }

  /** Concatenation of a list of words. */
  function Join(ws: seq<string>): string
  {
    if ws == [] then [] else ws[0] + Join(ws[1..])
  }

  /** The characters of s that are not separators, in order. */
  function WithoutDelimiters(s: string): string
  {
    if s == [] then []
    else (if IsDelimiter(s[0]) then [] else [s[0]]) + WithoutDelimiters(s[1..])
  }

  lemma {:induction false} WithoutDelimitersAppend(a: string, b: string)
    ensures WithoutDelimiters(a + b) == WithoutDelimiters(a) + WithoutDelimiters(b)
  {
    if a != [] {
      assert (a + b)[1..] == a[1..] + b;
      WithoutDelimitersAppend(a[1..], b);
    } else {
      assert a + b == b;
    }
  }

  lemma {:induction false} WithoutDelimitersOfWord(w: string)
    requires NoDelimiter(w)
    ensures WithoutDelimiters(w) == w
  {
    if w != [] {
      WithoutDelimitersOfWord(w[1..]);
    }
  }

  lemma {:induction false} WithoutDelimitersOfRun(s: string)
    requires forall k :: 0 <= k < |s| ==> IsDelimiter(s[k])
    ensures WithoutDelimiters(s) == []
  {
    if s != [] {
      WithoutDelimitersOfRun(s[1..]);
    }
  }

  /**
   * `preg_split('/[\s,\.\?\!]+/', s)`: the pieces between maximal runs of
   * separators. A separator at either end yields an empty first or last piece,
   * and the empty string yields one empty piece.
   */
  function Split(s: string): (fields: seq<string>)
    ensures |fields| > 0
    ensures forall w :: w in fields ==> NoDelimiter(w)
    ensures IsLower(s) ==> forall w :: w in fields ==> IsLower(w)
    decreases |s|
  {
    var i := FirstDelimiter(s);
    if i == |s| then
      assert s[..i] == s;
      [s]
    else
      var j := SkipDelimiters(s, i);
      var rest := Split(s[j..]);
      assert forall w :: w in rest ==> NoDelimiter(w);
      [s[..i]] + rest
  }

  /** Splitting loses only the separators: the pieces, put back together, are
      the text with every separator removed. */
  lemma {:induction false} SplitKeepsText(s: string)
    ensures Join(Split(s)) == WithoutDelimiters(s)
    decreases |s|
  {
    var i := FirstDelimiter(s);
    if i == |s| {
      SplitOfWord(s);
      WithoutDelimitersOfWord(s);
    } else {
      var j := SkipDelimiters(s, i);
      SplitKeepsText(s[j..]);
      SplitStep(s, i, j);
    }
  }

  lemma SplitOfWord(s: string)
    requires FirstDelimiter(s) == |s|
    ensures NoDelimiter(s) && Join(Split(s)) == s
  {
    assert s[..|s|] == s;
    assert Join([s]) == s + Join([]);
  }

  lemma SplitStep(s: string, i: nat, j: nat)
    requires i == FirstDelimiter(s) < |s| && j == SkipDelimiters(s, i)
    requires Join(Split(s[j..])) == WithoutDelimiters(s[j..])
    ensures Join(Split(s)) == WithoutDelimiters(s)
  {
    SplitHead(s, i, j);
    RemoveRun(s, i, j);
  }

  /** The first piece is the text before the first separator, and the other
      pieces are the split of what follows the first run of separators. */
  lemma SplitHead(s: string, i: nat, j: nat)
    requires i == FirstDelimiter(s) < |s| && j == SkipDelimiters(s, i)
    ensures Split(s) == [s[..i]] + Split(s[j..])
    ensures Join(Split(s)) == s[..i] + Join(Split(s[j..]))
  {
    var rest := Split(s[j..]);
    assert Split(s) == [s[..i]] + rest;
    assert ([s[..i]] + rest)[1..] == rest;
  }

  /** Removing the separators drops the first run of them and keeps the text before it. */
  lemma RemoveRun(s: string, i: nat, j: nat)
    requires i == FirstDelimiter(s) < |s| && j == SkipDelimiters(s, i)
    ensures WithoutDelimiters(s) == s[..i] + WithoutDelimiters(s[j..])
  {
    SkippedRun(s, i, j);
    Slices(s, i, j);
    RemoveParts(s[..i], s[i..j], s[j..]);
  }

  /** What `SkipDelimiters` passes over from the first separator is a run of separators. */
  lemma SkippedRun(s: string, i: nat, j: nat)
    requires i == FirstDelimiter(s) < |s| && j == SkipDelimiters(s, i)
    ensures IsRun(s[i..j])
  {
    forall k | 0 <= k < j - i ensures IsDelimiter(s[i..j][k]) {
      assert s[i..j][k] == s[i + k];
    }
  }

  lemma Slices(s: string, i: nat, j: nat)
    requires i <= j <= |s|
    ensures (s[..i] + s[i..j]) + s[j..] == s
  {
    assert s[..i] + s[i..j] == s[..j];
  }

  lemma RemoveParts(head: string, run: string, tail: string)
    requires NoDelimiter(head) && IsRun(run)
    ensures WithoutDelimiters((head + run) + tail) == head + WithoutDelimiters(tail)
  {
    WithoutDelimitersOfRun(run);
    WithoutDelimitersOfWord(head);
    WithoutDelimitersAppend(head, run);
    assert head + [] == head;
    WithoutDelimitersAppend(head + run, tail);
  }

  /** A non-empty run of separators. */
  predicate IsRun(r: string)
  {
    r != [] && forall k :: 0 <= k < |r| ==> IsDelimiter(r[k])
  }

  /** The pieces with the runs between them put back: piece, run, piece, ..., piece. */
  function Weave(fields: seq<string>, runs: seq<string>): string
    requires |fields| == |runs| + 1
    decreases |runs|
  {
    if runs == [] then fields[0] else fields[0] + runs[0] + Weave(fields[1..], runs[1..])
  }

  /**
   * A cutting of a text into pieces at maximal runs of separators: no piece holds
   * a separator, every run is non-empty, and every piece other than the first
   * and the last is non-empty (two runs never touch).
   */
  predicate Cutting(fields: seq<string>, runs: seq<string>)
  {
    && |fields| == |runs| + 1
    && (forall w :: w in fields ==> NoDelimiter(w))
    && (forall r :: r in runs ==> IsRun(r))
    && (forall k :: 0 < k < |fields| - 1 ==> fields[k] != [])
  }

  /** The runs of separators that `preg_split` cuts s at, in order. */
  function Runs(s: string): (runs: seq<string>)
    ensures |runs| == |Split(s)| - 1
    decreases |s|
  {
    var i := FirstDelimiter(s);
    if i == |s| then []
    else
      var j := SkipDelimiters(s, i);
      [s[i..j]] + Runs(s[j..])
  }

  /** `preg_split` cuts at the maximal runs of separators: its pieces, woven
      back together with those runs, give the text back. */
  lemma {:induction false} SplitWeave(s: string)
    ensures Cutting(Split(s), Runs(s))
    ensures Weave(Split(s), Runs(s)) == s
    decreases |s|
  {
    var i := FirstDelimiter(s);
    if i == |s| {
      assert s[..i] == s;
    } else {
      var j := SkipDelimiters(s, i);
      var t := s[j..];
      var rest, rr := Split(t), Runs(t);
      SplitWeave(t);
      SplitHead(s, i, j);
      assert Runs(s) == [s[i..j]] + rr;
      assert ([s[..i]] + rest)[1..] == rest && ([s[i..j]] + rr)[1..] == rr;
      SkippedRun(s, i, j);
      Slices(s, i, j);
      if |rest| > 1 {
        FirstPieceNonEmpty(t);
      }
    }
  }

  /** The first piece of a text that starts with a non-separator is non-empty. */
  lemma FirstPieceNonEmpty(t: string)
    requires |Split(t)| > 1
    requires t != [] ==> !IsDelimiter(t[0])
    ensures Split(t)[0] != []
  {
    var i := FirstDelimiter(t);
    assert i < |t|;
    assert Split(t)[0] == t[..i];
  }

  /** A text that opens with a separator-free piece and then a separator has its first separator there. */
  lemma FirstDelimiterAt(f: string, rest: string)
    requires NoDelimiter(f) && rest != [] && IsDelimiter(rest[0])
    ensures FirstDelimiter(f + rest) == |f|
  {
    var s := f + rest;
    assert forall k :: 0 <= k < |f| ==> s[k] == f[k];
    assert s[|f|] == rest[0];
  }

  /** The run of separators starting at i ends at j when s[i..j] is all separators and s[j] is not one. */
  lemma {:induction false} SkipDelimitersAt(s: string, i: nat, j: nat)
    requires i <= j <= |s|
    requires forall k :: i <= k < j ==> IsDelimiter(s[k])
    requires j < |s| ==> !IsDelimiter(s[j])
    ensures SkipDelimiters(s, i) == j
    decreases j - i
  {
    if i < j {
      SkipDelimitersAt(s, i + 1, j);
    }
  }

  /** The cutting is unique: any cutting of a text at maximal runs of separators is the one `preg_split` makes. */
  lemma {:induction false} SplitUnique(fields: seq<string>, runs: seq<string>)
    requires Cutting(fields, runs)
    ensures Split(Weave(fields, runs)) == fields
    decreases |runs|
  {
    if runs == [] {
      SplitOfPiece(fields);
    } else {
      CuttingTail(fields, runs);
      SplitUnique(fields[1..], runs[1..]);
      var s := Weave(fields, runs);
      var i, j := WeaveCuts(fields, runs);
      SplitHead(s, i, j);
      assert fields == [fields[0]] + fields[1..];
    }
  }

  lemma SplitOfPiece(fields: seq<string>)
    requires |fields| == 1 && NoDelimiter(fields[0])
    ensures Split(Weave(fields, [])) == fields
  {
    var s := fields[0];
    assert forall k :: 0 <= k < |s| ==> !IsDelimiter(s[k]);
    assert s[..|s|] == s;
  }

  /** Dropping the first piece and the first run leaves a cutting. */
  lemma CuttingTail(fields: seq<string>, runs: seq<string>)
    requires Cutting(fields, runs) && runs != []
    ensures Cutting(fields[1..], runs[1..])
  {
    var fs, rs := fields[1..], runs[1..];
    forall k | 0 < k < |fs| - 1 ensures fs[k] != [] {
      assert fs[k] == fields[k + 1];
    }
    forall x | x in rs ensures IsRun(x) {
      assert x in runs;
    }
    forall w | w in fs ensures NoDelimiter(w) {
      assert w in fields;
    }
  }

  /** In a woven text, the first run of separators is the first run woven in. */
  lemma WeaveCuts(fields: seq<string>, runs: seq<string>) returns (i: nat, j: nat)
    requires Cutting(fields, runs) && runs != []
    ensures i == |fields[0]| && j == i + |runs[0]|
    ensures i == FirstDelimiter(Weave(fields, runs)) < |Weave(fields, runs)|
    ensures j == SkipDelimiters(Weave(fields, runs), i)
    ensures Weave(fields, runs)[..i] == fields[0] && Weave(fields, runs)[j..] == Weave(fields[1..], runs[1..])
  {
    var f, r, t := fields[0], runs[0], Weave(fields[1..], runs[1..]);
    var s := Weave(fields, runs);
    assert f in fields && r in runs;
    assert s == f + (r + t);
    FirstDelimiterAt(f, r + t);
    i, j := |f|, |f| + |r|;
    assert forall k :: i <= k < j ==> IsDelimiter(s[k]) by {
      forall k | i <= k < j ensures IsDelimiter(s[k]) {
        assert s[k] == r[k - i];
      }
    }
    if j < |s| {
      NextPiece(fields, runs);
      assert s[j] == t[0];
    }
    SkipDelimitersAt(s, i, j);
    assert s[..i] == f && s[j..] == t;
  }

  /** What follows the first run of a cutting does not start with a separator. */
  lemma NextPiece(fields: seq<string>, runs: seq<string>)
    requires Cutting(fields, runs) && runs != []
    ensures var t := Weave(fields[1..], runs[1..]); t != [] ==> !IsDelimiter(t[0])
  {
    var fs := fields[1..];
    assert fs[0] == fields[1] && fields[1] in fields;
    if |fs| > 1 {
      assert fields[1] != [];
    }
  }

  /** Two separator-free words with one space between them are cut into those two words. */
  lemma SplitTwoWords(a: string, b: string)
    requires NoDelimiter(a) && NoDelimiter(b)
    ensures Split(a + " " + b) == [a, b]
  {
    assert IsRun(" ");
    assert Cutting([a, b], [" "]);
    assert Weave([a, b], [" "]) == a + " " + b by {
      assert [a, b][1..] == [b];
    }
    SplitUnique([a, b], [" "]);
  }

  const STOP_WORDS: seq<string> :=
    ["a", "an", "the", "is", "in", "it", "of", "for", "on", "what", "were", "my", "that", "we", "to"]

  /** Membership in a word list, one word at a time. */
  predicate Listed(w: string, list: seq<string>)
  {
    list != [] && (list[0] == w || Listed(w, list[1..]))
  }

  lemma {:induction false} ListedMeansIn(w: string, list: seq<string>)
    ensures Listed(w, list) <==> w in list
  {
    if list != [] {
      ListedMeansIn(w, list[1..]);
      assert list == [list[0]] + list[1..];
    }
  }

  /** The test of the `array_filter` callback: not a stop-word and longer than three characters. */
  predicate IsKeyword(w: string)
  {
    !Listed(w, STOP_WORDS) && |w| > 3
  }

  /** `array_filter` with `IsKeyword`, keeping order. */
  function KeepKeywords(ws: seq<string>): (r: seq<string>)
    ensures forall w :: w in r <==> w in ws && IsKeyword(w)
    ensures Distinct(ws) ==> Distinct(r)
  {
    if ws == [] then []
    else
      var r := KeepKeywords(ws[..|ws| - 1]);
      assert Distinct(ws) ==> Distinct(ws[..|ws| - 1]);
      if IsKeyword(ws[|ws| - 1]) then r + [ws[|ws| - 1]] else r
  }

  /**
   * MemoryManager::extractEntities. Every keyword is lower-case, free of
   * separators, longer than three characters and not a stop-word, no keyword
   * occurs twice, and every word of the lower-cased text that passes the
   * filter is among them.
   */
  function ExtractEntities(text: string): (keywords: seq<string>)
    ensures Distinct(keywords)
    ensures forall w :: w in keywords ==> IsLower(w) && NoDelimiter(w) && |w| > 3 && !Listed(w, STOP_WORDS)
    ensures forall w :: w in keywords <==> w in Split(Lower(text)) && IsKeyword(w)
  {
    KeepKeywords(Unique(Split(Lower(text))))
  }

  /**
   * Two different lower-case words longer than four characters, separated by a
   * space, are both keywords, in their order: for example "about rockets".
   */
  lemma ExtractTwoWords(a: string, b: string)
    requires NoDelimiter(a) && NoDelimiter(b) && IsLower(a) && IsLower(b)
    requires |a| > 4 && |b| > 4 && a != b
    ensures ExtractEntities(a + " " + b) == [a, b]
  {
    var text := a + " " + b;
    assert IsLower(text) by {
      forall k | 0 <= k < |text| ensures !IsUpper(text[k]) {
        if k < |a| {
          assert text[k] == a[k];
        } else if k > |a| {
          assert text[k] == b[k - |a| - 1];
        }
      }
    }
    LowerOfLower(text);
    SplitTwoWords(a, b);
    assert Distinct([a, b]);
    UniqueOfDistinct([a, b]);
    LongWordIsKeyword(a);
    LongWordIsKeyword(b);
    KeepStep([], a);
    KeepStep([a], b);
    assert [] + [a] == [a] && [a] + [b] == [a, b];
  }

  /** `array_filter` decides each word on its own. */
  lemma KeepStep(ws: seq<string>, w: string)
    ensures IsKeyword(w) ==> KeepKeywords(ws + [w]) == KeepKeywords(ws) + [w]
    ensures !IsKeyword(w) ==> KeepKeywords(ws + [w]) == KeepKeywords(ws)
  {
    assert (ws + [w])[..|ws|] == ws;
  }

  /** No stop-word is longer than four characters, so every longer word is a keyword. */
  lemma LongWordIsKeyword(w: string)
    requires |w| > 4
    ensures IsKeyword(w)
  {
    forall i | 0 <= i < |STOP_WORDS| ensures |STOP_WORDS[i]| <= 4 {
    }
    ListedMeansIn(w, STOP_WORDS);
  }
}
