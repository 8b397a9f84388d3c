/**
 * The pure parts of MemoryManager::getRelevantContext: the one-hop widening of
 * the query keywords, the candidate interactions they point to, their ranking,
 * and how a recalled memory is rendered and measured.
 */
module Retrieval {
  import opened Config
  import opened Seqs
  import opened Records
  import opened Keywords
  import opened WordCount

  /** The keys of the relationships of every base keyword that has an entity, one base keyword after the other. */
  function RelatedOf(E: map<Key, Entity>, base: seq<Key>): seq<Key>
  {
    if base == [] then []
    else
      var b := base[|base| - 1];
      RelatedOf(E, base[..|base| - 1]) + (if b in E then Related(E[b].relationships) else [])
  }

  lemma {:induction false} RelatedOfMembership(E: map<Key, Entity>, base: seq<Key>, k: Key)
    ensures k in RelatedOf(E, base) <==> exists b :: b in base && b in E && k in Related(E[b].relationships)
  {
    if base != [] {
      var p, b := base[..|base| - 1], base[|base| - 1];
      RelatedOfMembership(E, p, k);
      assert base == p + [b];
      if k in RelatedOf(E, base) && k !in RelatedOf(E, p) {
        assert b in base && b in E && k in Related(E[b].relationships);
      }
    }
  }

  /**
   * MemoryManager::normalizeAndExpandEntities: the base keywords together with
   * every keyword a known base keyword is linked to, each once.
   */
  function NormalizeAndExpandEntities(E: map<Key, Entity>, base: seq<Key>): (expanded: seq<Key>)
    ensures Distinct(expanded)
    ensures forall k :: k in expanded <==>
      k in base || exists b :: b in base && b in E && k in Related(E[b].relationships)
    ensures |base| > 0 ==> |expanded| > 0 && expanded[0] == base[0]
  {
    var all := base + RelatedOf(E, base);
    forall k ensures k in all <==> k in base || k in RelatedOf(E, base) {
    }
    forall k ensures k in RelatedOf(E, base) <==> exists b :: b in base && b in E && k in Related(E[b].relationships) {
      RelatedOfMembership(E, base, k);
    }
    UniqueHead(all);
    Unique(all)
  }

  /** `array_unique` keeps the first element in front. */
  lemma {:induction false} UniqueHead(s: seq<Key>)
    ensures |s| > 0 ==> |Unique(s)| > 0 && Unique(s)[0] == s[0]
  {
    if |s| > 1 {
      UniqueHead(s[..|s| - 1]);
    }
  }

  /** The `mentioned_in` lists of the search keywords that have an entity, concatenated. */
  function MentionedIn(E: map<Key, Entity>, search: seq<Key>): seq<Id>
  {
    if search == [] then []
    else
      var k := search[|search| - 1];
      MentionedIn(E, search[..|search| - 1]) + (if k in E then E[k].mentionedIn else [])
  }

  lemma {:induction false} MentionedInMembership(E: map<Key, Entity>, search: seq<Key>, id: Id)
    ensures id in MentionedIn(E, search) <==> exists k :: k in search && k in E && id in E[k].mentionedIn
  {
    if search != [] {
      var p, k := search[..|search| - 1], search[|search| - 1];
      MentionedInMembership(E, p, id);
      assert search == p + [k];
      if id in MentionedIn(E, search) && id !in MentionedIn(E, p) {
        assert k in search && k in E && id in E[k].mentionedIn;
      }
    }
  }

  /** The ids that still have a stored interaction; pruned ids left behind in `mentioned_in` are skipped. */
  function Existing(I: map<Id, Interaction>, ids: seq<Id>): (r: seq<Id>)
    ensures forall id :: id in r <==> id in ids && id in I
    ensures Distinct(ids) ==> Distinct(r)
  {
    if ids == [] then []
    else
      var id := ids[|ids| - 1];
      assert Distinct(ids) ==> Distinct(ids[..|ids| - 1]);
      Existing(I, ids[..|ids| - 1]) + (if id in I then [id] else [])
  }

  /** The interactions reachable from the query: stored, and mentioned by a keyword of the widened query. */
  function Candidates(I: map<Id, Interaction>, E: map<Key, Entity>, userInput: string): seq<Id>
  {
    Existing(I, Unique(MentionedIn(E, NormalizeAndExpandEntities(E, ExtractEntities(userInput)))))
  }

  /**
   * The candidates of a query are exactly the stored interactions listed in the
   * `mentioned_in` of a keyword of the widened query, each once.
   */
  lemma CandidatesMembership(I: map<Id, Interaction>, E: map<Key, Entity>, userInput: string)
    ensures Distinct(Candidates(I, E, userInput))
    ensures forall id :: id in Candidates(I, E, userInput) <==>
      id in I && exists k :: k in NormalizeAndExpandEntities(E, ExtractEntities(userInput)) && k in E && id in E[k].mentionedIn
  {
    var search := NormalizeAndExpandEntities(E, ExtractEntities(userInput));
    var mentioned := MentionedIn(E, search);
    forall id ensures id in mentioned <==> exists k :: k in search && k in E && id in E[k].mentionedIn {
      MentionedInMembership(E, search, id);
    }
  }

  predicate AllStored(I: map<Id, Interaction>, ids: seq<Id>)
  {
    forall id :: id in ids ==> id in I
  }

  /** Highest score first. */
  predicate SortedByRank(I: map<Id, Interaction>, ids: seq<Id>)
    requires AllStored(I, ids)
  {
    forall i, j :: 0 <= i < j < |ids| ==> Rank(I[ids[i]]) >= Rank(I[ids[j]])
  }

  /** Puts id in front of the first element that does not rank strictly higher. */
  function InsertByRank(I: map<Id, Interaction>, id: Id, sorted: seq<Id>): (r: seq<Id>)
    requires id in I && AllStored(I, sorted)
    ensures multiset(r) == multiset(sorted) + multiset{id}
    ensures forall x :: x in r <==> x in sorted || x == id
    ensures AllStored(I, r)
  {
    if sorted == [] || Rank(I[id]) >= Rank(I[sorted[0]]) then [id] + sorted
    else
      assert sorted == [sorted[0]] + sorted[1..];
      [sorted[0]] + InsertByRank(I, id, sorted[1..])
  }

  lemma {:induction false} InsertByRankSorted(I: map<Id, Interaction>, id: Id, sorted: seq<Id>)
    requires id in I && AllStored(I, sorted) && SortedByRank(I, sorted)
    ensures SortedByRank(I, InsertByRank(I, id, sorted))
  {
    if !(sorted == [] || Rank(I[id]) >= Rank(I[sorted[0]])) {
      var head, tail := sorted[0], sorted[1..];
      var rest := InsertByRank(I, id, tail);
      var r := [head] + rest;
      assert r == InsertByRank(I, id, sorted);
      InsertByRankSorted(I, id, tail);
      forall x | x in rest ensures Rank(I[head]) >= Rank(I[x]) {
        if x in tail {
          var k :| 0 <= k < |tail| && tail[k] == x;
          assert sorted[k + 1] == x;
        }
      }
      SortedCons(I, head, rest);
    }
  }

  /** A sorted list stays sorted when an id that ranks at least as high as all of it is put in front. */
  lemma SortedCons(I: map<Id, Interaction>, head: Id, rest: seq<Id>)
    requires head in I && AllStored(I, rest) && SortedByRank(I, rest)
    requires forall x :: x in rest ==> Rank(I[head]) >= Rank(I[x])
    ensures AllStored(I, [head] + rest) && SortedByRank(I, [head] + rest)
  {
    var r := [head] + rest;
    forall i, j | 0 <= i < j < |r| ensures Rank(I[r[i]]) >= Rank(I[r[j]]) {
      if i == 0 {
        assert r[j] in rest;
      } else {
        assert r[i] == rest[i - 1] && r[j] == rest[j - 1];
      }
    }
  }

  /**
   * The `uasort` of getRelevantContext: a stable sort, highest score first, a
   * missing score counting as 1.0. The result is a permutation of the input.
   */
  function SortByRank(I: map<Id, Interaction>, ids: seq<Id>): (r: seq<Id>)
    requires AllStored(I, ids)
    ensures multiset(r) == multiset(ids)
    ensures AllStored(I, r) && SortedByRank(I, r)
  {
    if ids == [] then []
    else
      assert ids == [ids[0]] + ids[1..];
      var rest := SortByRank(I, ids[1..]);
      InsertByRankSorted(I, ids[0], rest);
      InsertByRank(I, ids[0], rest)
  }

  /** The order in which getRelevantContext offers candidates to the word budget:
      the candidates rearranged, highest score first. */
  function Ranked(I: map<Id, Interaction>, E: map<Key, Entity>, userInput: string): (ids: seq<Id>)
    ensures multiset(ids) == multiset(Candidates(I, E, userInput))
    ensures AllStored(I, ids) && SortedByRank(I, ids)
  {
    SortByRank(I, Candidates(I, E, userInput))
  }

  /**
   * The ranked candidates are exactly the stored interactions mentioned by a
   * keyword of the widened query, each once, highest score first.
   */
  lemma RankedCandidates(I: map<Id, Interaction>, E: map<Key, Entity>, userInput: string)
    ensures var ids := Ranked(I, E, userInput);
      && Distinct(ids)
      && SortedByRank(I, ids)
      && forall id :: id in ids <==> id in I && exists k :: k in NormalizeAndExpandEntities(E, ExtractEntities(userInput)) && k in E && id in E[k].mentionedIn
  {
    CandidatesMembership(I, E, userInput);
    PermutationOfDistinct(Candidates(I, E, userInput), Ranked(I, E, userInput));
  }

  /** The ranking lists each candidate once, highest score first. */
  lemma RankedSortedDistinct(I: map<Id, Interaction>, E: map<Key, Entity>, userInput: string)
    ensures Distinct(Ranked(I, E, userInput)) && SortedByRank(I, Ranked(I, E, userInput))
  {
    RankedCandidates(I, E, userInput);
  }

  /** A rearrangement of a list without repetitions has the same members and no repetitions. */
  lemma PermutationOfDistinct(a: seq<Id>, b: seq<Id>)
    requires multiset(a) == multiset(b) && Distinct(a)
    ensures Distinct(b)
    ensures forall x :: x in b <==> x in a
  {
    forall x ensures x in b <==> x in a {
      assert x in b <==> x in multiset(b);
      assert x in a <==> x in multiset(a);
    }
    forall i, j | 0 <= i < j < |b| ensures b[i] != b[j] {
      if b[i] == b[j] {
        MultisetCountAtLeastTwo(b, i, j);
        DistinctMultiplicity(a, b[i]);
      }
    }
  }

  lemma {:induction false} MultisetCountAtLeastTwo(s: seq<Id>, i: nat, j: nat)
    requires i < j < |s| && s[i] == s[j]
    ensures multiset(s)[s[i]] >= 2
  {
    assert s == s[..j] + [s[j]] + s[j + 1..];
    assert s[i] in s[..j];
    assert multiset(s) == multiset(s[..j]) + multiset{s[j]} + multiset(s[j + 1..]);
  }

  lemma {:induction false} DistinctMultiplicity(s: seq<Id>, x: Id)
    requires Distinct(s)
    ensures multiset(s)[x] <= 1
  {
    if s != [] {
      var p := s[..|s| - 1];
      assert s == p + [s[|s| - 1]];
      assert Distinct(p);
      DistinctMultiplicity(p, x);
      if s[|s| - 1] == x {
        assert x !in p;
      }
    }
  }

  /** A prefix of a sorted list without repetitions is sorted and without repetitions. */
  lemma PrefixSortedDistinct(I: map<Id, Interaction>, ids: seq<Id>, n: nat)
    requires AllStored(I, ids) && SortedByRank(I, ids) && Distinct(ids) && n <= |ids|
    ensures AllStored(I, ids[..n]) && SortedByRank(I, ids[..n]) && Distinct(ids[..n])
  {
  }

  lemma MentionedInStep(E: map<Key, Entity>, search: seq<Key>, n: nat)
    requires n < |search|
    ensures MentionedIn(E, search[..n + 1])
            == MentionedIn(E, search[..n]) + (if search[n] in E then E[search[n]].mentionedIn else [])
  {
    assert search[..n + 1][..n] == search[..n];
  }

  lemma ExistingStep(I: map<Id, Interaction>, ids: seq<Id>, n: nat)
    requires n < |ids|
    ensures Existing(I, ids[..n + 1]) == Existing(I, ids[..n]) + (if ids[n] in I then [ids[n]] else [])
  {
    assert ids[..n + 1][..n] == ids[..n];
  }

  lemma PrefixStep(ids: seq<Id>, n: nat)
    requires n < |ids|
    ensures ids[..n + 1] == ids[..n] + [ids[n]]
  {
  }

  /** The line a recalled memory contributes, quoting the user's words and the answer verbatim;
      formatTime stands for `date('Y-m-d H:i:s', strtotime(...))`. */
  function RenderLine(m: Interaction, formatTime: string -> string): (line: string)
    ensures |line| > 0 && line[0] == '[' && line[|line| - 1] == '\n'
    ensures var u := |formatTime(m.timestamp)| + 13;
      |line| == u + |m.userInputRaw| + 9 + |m.aiOutput| + 3
      && line[u..u + |m.userInputRaw|] == m.userInputRaw
      && line[u + |m.userInputRaw| + 9..|line| - 3] == m.aiOutput
  {
    "[On " + formatTime(m.timestamp) + "] User: '" + m.userInputRaw + "'. You: '" + m.aiOutput + "'.\n"
  }

  function LineWords(I: map<Id, Interaction>, id: Id, formatTime: string -> string): nat
    requires id in I
  {
    StrWordCount(RenderLine(I[id], formatTime))
  }

  /** The context text for ids, one line each, in order. */
  function Lines(I: map<Id, Interaction>, ids: seq<Id>, formatTime: string -> string): (text: string)
    requires AllStored(I, ids)
    ensures ids != [] ==> |text| > 0 && text[0] == '[' && text[|text| - 1] == '\n'
    ensures ids == [] ==> text == []
  {
    if ids == [] then []
    else Lines(I, ids[..|ids| - 1], formatTime) + RenderLine(I[ids[|ids| - 1]], formatTime)
  }

  /** The budget getRelevantContext charges for ids: the sum of the word counts of their lines. */
  function TotalWords(I: map<Id, Interaction>, ids: seq<Id>, formatTime: string -> string): nat
    requires AllStored(I, ids)
  {
    if ids == [] then 0
    else TotalWords(I, ids[..|ids| - 1], formatTime) + LineWords(I, ids[|ids| - 1], formatTime)
  }

  /** Because every line starts with `[` and ends with a line feed, the word count of the joined context is the sum charged line by line. */
  lemma {:induction false} LinesWordCount(I: map<Id, Interaction>, ids: seq<Id>, formatTime: string -> string)
    requires AllStored(I, ids)
    ensures StrWordCount(Lines(I, ids, formatTime)) == TotalWords(I, ids, formatTime)
  {
    if ids != [] {
      var p := ids[..|ids| - 1];
      var line := RenderLine(I[ids[|ids| - 1]], formatTime);
      LinesWordCount(I, p, formatTime);
      var prefix := Lines(I, p, formatTime);
      CountRunsAppend(prefix, line);
      StrWordCountPlain(line);
      StrWordCountPlain(prefix + line);
      if p != [] {
        StrWordCountPlain(prefix);
      }
    }
  }

  /** The text returned when nothing was recalled. */
  const NO_MEMORIES: string := "No relevant memories found.\n"

  /** The "no memories" line is within the word budget. */
  lemma NoMemoriesFits()
    ensures StrWordCount(NO_MEMORIES) <= CONTEXT_TOKEN_BUDGET
  {
  }
}
