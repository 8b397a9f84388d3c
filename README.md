# Memory engine of project_nemi, modelled in Dafny

This project models the memory engine of project_nemi: the PHP class `MemoryManager`
(`project_nemi/MemoryManager.php`). The engine keeps two stores in memory:

- `interactions`: interaction id → one recorded turn. A turn holds the raw input, the extracted
  keywords, the answer, a relevance score, the access time and the ids of the memories used as context.
- `entities`: keyword → an entity record. A record holds an access count, a score, the ids that
  mention the keyword, and weighted links to co-occurring keywords.

The model has one module per concern:

| module | file | what it holds |
|---|---|---|
| `Config` | `config.dfy` | the tuning constants of `project_nemi/config.php` |
| `Seqs` | `seqs.dfy` | `array_unique` (keep first occurrences), occurrence counts |
| `Records` | `records.dfy` | the two record types; `relevance_score += d` on a record; the ordered `relationships` array |
| `Keywords` | `keywords.dfy` | `extractEntities`: `strtolower`, the `preg_split` on `[\s,\.\?\!]+`, the unique/stop-word/length filter |
| `WordCount` | `words.dfy` | PHP's `str_word_count` (C-locale letters, `'` and `-`, leading/trailing trimming) |
| `Retrieval` | `retrieval.dfy` | one-hop expansion, candidate collection, the stable highest-first sort, line rendering and word totals |
| `EntityIndex` | `entity_index.dfy` | the entity index after `updateEntitiesFromInteraction`, as a function of the old index |
| `Scoring` | `scoring.dfy` | reward, decay, insertion, feedback and pruning, as functions of the old store |
| `Memory` | `memory_manager.dfy` | `class MemoryManager`, whose two map fields are updated in place by methods with loop invariants |

Each method of the class is proved against a specification function of the old state (`Ranked`,
`AfterRewards`, `Decayed`, `Touched`, `Linked`, `Indexed`, `AfterFeedback`, `Staged`, `IsPruningOf`). The lemmas beside
those functions prove the rules the engine promises:

- the decay formula;
- the novelty bonus;
- the per-keyword effect on the entity index;
- symmetric link growth;
- the feedback split;
- the pruning policy;
- the word budget of recalled context.

Scores are exact reals. A record read back from storage may lack `relevance_score` or
`context_used_ids`, so both are optional. Ordering reads a missing score as 1.0 (`?? 1.0`).
Arithmetic reads it as 0, as PHP's `null + d` does.

The caller supplies three values:

- the clock (`date('c')`) as `now`;
- the id from `uniqid` as `newId`;
- the timestamp rendering of a recalled memory (`date('Y-m-d H:i:s', strtotime(...))`) as `formatTime`.

## Model

| member | source | states |
|---|---|---|
| Keywords.Lower | project_nemi/MemoryManager.php:47 | `strtolower` keeps the length, leaves no capital letter and lowers each character on its own |
| Keywords.LowerOfLower | project_nemi/MemoryManager.php:158 | lower-casing an already lower-case keyword changes nothing, so the entity key is the keyword itself |
| Keywords.Split | project_nemi/MemoryManager.php:48 | `preg_split` yields at least one field (empty fields included); no field contains a separator; a lower-case text gives lower-case fields |
| Keywords.SplitWeave | project_nemi/MemoryManager.php:48 | `preg_split` cuts at the maximal runs of separators: the fields, woven back together with the non-empty separator runs between them, give the text back, and every field but the first and last is non-empty |
| Keywords.SplitUnique | project_nemi/MemoryManager.php:48 | that cutting is unique: any list of separator-free fields, joined by non-empty separator runs with no empty inner field, is exactly what `preg_split` returns for the joined text |
| Keywords.SplitTwoWords | project_nemi/MemoryManager.php:48 | two separator-free words joined by one space are split into exactly those two words |
| Keywords.SplitKeepsText | project_nemi/MemoryManager.php:48 | the fields, joined, are exactly the text with its separators removed: the split loses and invents nothing |
| Keywords.SplitHead | project_nemi/MemoryManager.php:48 | the first field is the text before the first separator, and the other fields are the split of what follows the first run of separators (so are the joined texts) |
| Keywords.RemoveRun | project_nemi/MemoryManager.php:48 | removing separators drops the first run of them and keeps the text before it |
| Keywords.ListedMeansIn | project_nemi/MemoryManager.php:49-50 | the stop-word test is membership in the stop-word list (`in_array`) |
| Keywords.LongWordIsKeyword | project_nemi/MemoryManager.php:49-50 | no stop-word is longer than four characters, so every longer word passes the filter |
| Keywords.KeepStep | project_nemi/MemoryManager.php:50 | `array_filter` decides each word on its own: appending a word appends it to the result exactly when it passes the filter |
| Keywords.KeepKeywords | project_nemi/MemoryManager.php:50 | `array_filter` keeps exactly the words that are not stop-words and are longer than three characters, and keeps a list without repeats free of repeats |
| Keywords.ExtractEntities | project_nemi/MemoryManager.php:45-51 | every keyword is lower-case, has no separator, is longer than 3 characters and is not a stop-word; no keyword repeats; a word is a keyword exactly when it is a field of the lower-cased split that passes the filter |
| Keywords.ExtractTwoWords | project_nemi/MemoryManager.php:45-51 | two different lower-case words longer than four characters, separated by a space, are both keywords, in their order (as in "about rockets") |
| Seqs.Unique | project_nemi/MemoryManager.php:50 | `array_unique` leaves no repeats, keeps exactly the same members and never grows the list |
| Seqs.UniqueOfDistinct | project_nemi/MemoryManager.php:63 | `array_unique` leaves a list without repeats unchanged |
| Retrieval.UniqueHead | project_nemi/MemoryManager.php:63 | `array_unique` keeps the first element in front |
| Retrieval.RelatedOfMembership | project_nemi/MemoryManager.php:57-61 | the merged relationship keys are exactly the keys linked from some base keyword that has an entity |
| Retrieval.NormalizeAndExpandEntities | project_nemi/MemoryManager.php:54-64 | the widened query has no repeats, starts with the first base keyword, and holds exactly the base keywords plus every keyword linked from a base keyword that has an entity |
| Retrieval.MentionedInMembership | project_nemi/MemoryManager.php:73-77 | the collected ids are exactly those in the `mentioned_in` list of some search keyword that has an entity |
| Retrieval.Existing | project_nemi/MemoryManager.php:80-85 | exactly the listed ids that are still stored are kept (dangling ids are skipped), and no repeats are introduced |
| Retrieval.CandidatesMembership | project_nemi/MemoryManager.php:69-85 | the candidates are exactly the stored interactions mentioned by a keyword of the widened query, each once |
| Retrieval.InsertByRankSorted | project_nemi/MemoryManager.php:87 | inserting before the first element that does not rank strictly higher keeps a highest-first list sorted |
| Retrieval.SortedCons | project_nemi/MemoryManager.php:87 | putting in front an id that ranks at least as high as every element keeps a highest-first list sorted |
| Retrieval.SortByRank | project_nemi/MemoryManager.php:87 | the `uasort` result is a permutation of its input, sorted highest score first, with a missing score counted as 1.0 |
| Retrieval.Ranked | project_nemi/MemoryManager.php:69-87 | the ranking is a rearrangement of the candidates, all stored, highest score first |
| Retrieval.RankedCandidates | project_nemi/MemoryManager.php:69-87 | the ranking lists each candidate once, highest first, and holds exactly the stored interactions mentioned by a keyword of the widened query |
| Retrieval.RankedSortedDistinct | project_nemi/MemoryManager.php:79-87 | the ranking has no repeats and is sorted highest first |
| Retrieval.PrefixSortedDistinct | project_nemi/MemoryManager.php:93-105 | any prefix of a sorted list without repeats is again sorted, without repeats and stored |
| Retrieval.Lines | project_nemi/MemoryManager.php:95-99 | a non-empty context starts with `[` and ends with a line feed, and no lines give the empty context |
| Retrieval.RenderLine | project_nemi/MemoryManager.php:94-95 | a recalled memory's line opens with `[`, ends with a line feed, and quotes the user's words and the answer verbatim at their places |
| WordCount.StrWordCount | project_nemi/MemoryManager.php:96 | `str_word_count` never counts more words than characters, counts none in a text without letters, `'` or `-`, and at least one when such a character stands anywhere but at either end |
| WordCount.CountRunsIsCountStarts | project_nemi/MemoryManager.php:96 | counting each word at its last character, as the model does, gives the same number as counting each at its first character while scanning left to right |
| WordCount.CountRunsAppend | project_nemi/MemoryManager.php:96 | `str_word_count` counts the words of a concatenation as the sum of the parts' counts when the first part ends in a character that cannot be part of a word |
| WordCount.StrWordCountPlain | project_nemi/MemoryManager.php:96 | a text that neither starts with `'` or `-` nor ends with `-` has nothing trimmed before its words are counted |
| Retrieval.LinesWordCount | project_nemi/MemoryManager.php:96-100 | the word count of the joined context equals the running total the loop keeps line by line |
| Retrieval.NoMemoriesFits | project_nemi/MemoryManager.php:108 | the "No relevant memories found." sentinel is within the word budget |
| Memory.MemoryManager.CollectMentions | project_nemi/MemoryManager.php:73-77 | the loop's result is the concatenated `mentioned_in` lists of the search keywords that have an entity |
| Memory.MemoryManager.KeepStored | project_nemi/MemoryManager.php:80-85 | the loop keeps exactly the ids that are still stored, in order |
| Memory.MemoryManager.RankCandidates | project_nemi/MemoryManager.php:69-87 | the ranked candidates of the query are the specification's ranking |
| Memory.MemoryManager.TakeWithinBudget | project_nemi/MemoryManager.php:89-105 | the used ids are a prefix of the ranking and are stored; their word total is within `CONTEXT_TOKEN_BUDGET`; the next line would not fit (the loop stops at the first misfit); the context is their lines in order; a sorted list without repeats yields a sorted prefix without repeats |
| Memory.MemoryManager.GetRelevantContext | project_nemi/MemoryManager.php:67-111 | the used ids are a prefix of the ranked candidates, are stored, are sorted highest first and have no repeats; the prefix is the longest whose word total fits the budget; the context is their lines, or the sentinel when none fit; the returned text is within the budget in words |
| Records.AddScore | project_nemi/MemoryManager.php:120 | `relevance_score += d` sets the score to the old score (0 when missing) plus d and changes no other field |
| Records.Bump | project_nemi/MemoryManager.php:183 | `relationships[k] = (relationships[k] ?? 0) + d` raises the strength to k by d, leaves every other strength alone, keeps existing keys in place and appends a new key at the end |
| Scoring.RecentTopicsMembership | project_nemi/MemoryManager.php:118-125 | the recent keywords are exactly the keywords of the used interactions that are still stored |
| Scoring.AfterRewardsStepAt | project_nemi/MemoryManager.php:118-124 | one pass of the reward loop rewards and stamps the record under the used id and leaves every other record as it was |
| Scoring.AfterRewardsStep | project_nemi/MemoryManager.php:118-124 | each pass of the reward loop adds the reward to one stored used interaction, stamps it with now, and changes no other record |
| Scoring.DecayedSameTopics | project_nemi/MemoryManager.php:125-132 | the decay depends on the recent keywords only through which keywords they are, so `array_unique` does not change it |
| Scoring.DecayedScore | project_nemi/MemoryManager.php:118-132 | after the reward and decay loops each stored interaction has its old score, plus `REWARD_SCORE` once per occurrence of its id among the used ids, minus `DECAY_SCORE * RECENT_TOPIC_DECAY_MODIFIER` when one of its keywords is a keyword of a used stored interaction and `DECAY_SCORE` otherwise; only the score and, when it was used, the access time change |
| Scoring.RecalledGainsUnrelatedLoses | project_nemi/MemoryManager.php:118-132 | a recalled memory gains score overall while a memory sharing no keyword with the recalled ones loses exactly `DECAY_SCORE` |
| Scoring.StagedOld | project_nemi/MemoryManager.php:128-145 | before pruning, every other interaction is exactly as the reward and decay loops left it |
| Scoring.StagedKeepsKeywords | project_nemi/MemoryManager.php:118-145 | the reward and decay loops and the insertion of the new turn change no stored interaction's keywords |
| Scoring.StagedKeys | project_nemi/MemoryManager.php:137-145 | exactly one id, the new one, is added; under a fresh id the store grows by one |
| Scoring.StagedNew | project_nemi/MemoryManager.php:134-176 | the new turn is stored undecayed, with its input, answer, keywords, timestamps and `context_used_ids` equal to the used ids; its score is `INITIAL_SCORE`, plus `NOVELTY_BONUS` exactly when one of its keywords had no entity |
| EntityIndex.ReinforceStrength | project_nemi/MemoryManager.php:181-185 | the inner loop raises the link to every other keyword of the input by exactly one increment and changes no other link |
| EntityIndex.ReinforceKeepsOrder | project_nemi/MemoryManager.php:183 | existing links keep their place; new ones are appended after them |
| EntityIndex.TouchedStep | project_nemi/MemoryManager.php:157-171 | one pass of the first loop touches the entity of one more keyword and changes no other entity |
| EntityIndex.LinkedStep | project_nemi/MemoryManager.php:180-186 | one pass of the outer relationship loop reinforces the links of one more keyword and changes no other entity |
| EntityIndex.IntroducesEntityStep | project_nemi/MemoryManager.php:157-160 | after one more pass the novelty flag is set exactly when it was set before or this keyword had no entity |
| EntityIndex.TouchFields | project_nemi/MemoryManager.php:157-171 | touching a keyword's entity raises its access count by 1 and its score by `REWARD_SCORE` (a new entity starts from 0 and `INITIAL_SCORE`, named after the keyword, of type `Concept`, without links); the id is listed in `mentioned_in`, exactly once when it was not there before, after the old list |
| EntityIndex.IndexedAt | project_nemi/MemoryManager.php:154-188 | after the update, an input keyword's entity is the touched one, with its links reinforced over the input when the input has several keywords |
| EntityIndex.IndexedKeyword | project_nemi/MemoryManager.php:157-171 | each input keyword has an entity afterwards; its access count rises by 1 and its score by `REWARD_SCORE` (a new entity starts from 0, `INITIAL_SCORE`, name = keyword, type `Concept`); `mentioned_in` keeps its old list in front and contains the new id, exactly once when it was not there before |
| EntityIndex.IndexedLinks | project_nemi/MemoryManager.php:179-187 | each link from an input keyword to another input keyword gains exactly one increment, and every other link of that keyword is unchanged |
| EntityIndex.IndexedOther | project_nemi/MemoryManager.php:157-187 | entities of keywords outside the input are unchanged and none is created |
| EntityIndex.IndexedStrength | project_nemi/MemoryManager.php:179-187 | the link from a to b grows by one increment exactly when a and b are distinct keywords of the input |
| EntityIndex.IndexedSymmetric | project_nemi/MemoryManager.php:179-187 | if link strengths were symmetric before, they are symmetric after |
| Scoring.SpreadStep | project_nemi/MemoryManager.php:202-207 | each pass of the context loop moves one stored listed interaction by half the adjustment |
| Scoring.SpreadCount | project_nemi/MemoryManager.php:201-207 | after the context loop a stored interaction listed c times has moved by c half-adjustments, and an unlisted one is untouched |
| Scoring.TimesIsProduct | project_nemi/MemoryManager.php:201-207 | c successive moves by d add up to a move by c × d |
| Scoring.FeedbackEffect | project_nemi/MemoryManager.php:191-208 | feedback on an unknown id changes nothing; otherwise the answer moves by ±0.5, each stored interaction in its `context_used_ids` by half that once per listing, every other record is unchanged, and no id is added or removed |
| Scoring.FeedbackOnTwoContextMemories | project_nemi/MemoryManager.php:191-208 | a bad answer that used two memories A and B loses 0.5 and A and B lose exactly 0.25 each |
| Scoring.KeepTopIsPruning | project_nemi/MemoryManager.php:210-216 | keeping the first `PRUNING_THRESHOLD` ids of a highest-first ranking of the whole store leaves exactly that many records, unchanged, and evicts none that ranks above a kept one |
| Scoring.RankingLength | project_nemi/MemoryManager.php:212-214 | a ranking of the whole store without repeats is as long as the store |
| Scoring.KeptSize | project_nemi/MemoryManager.php:214 | keeping the records of n distinct stored ids keeps n records |
| Scoring.KeptOutranks | project_nemi/MemoryManager.php:213-214 | in a highest-first ranking, an id past the cut ranks no higher than one before it |
| Scoring.StagedCovered | project_nemi/MemoryManager.php:134-171 | recording a turn keeps every keyword of every stored interaction indexed by an entity whose `mentioned_in` lists the interaction |
| Scoring.PruningCovered | project_nemi/MemoryManager.php:210-216 | pruning only removes interactions, so the index still covers the store |
| Scoring.FeedbackCovered | project_nemi/MemoryManager.php:191-208 | feedback changes only scores, so the index still covers the store |
| Memory.MemoryManager.constructor | project_nemi/MemoryManager.php:8-14 | the manager starts from the two stores as loaded |
| Memory.MemoryManager.RewardUsed | project_nemi/MemoryManager.php:116-125 | the store becomes `AfterRewards` of the old store, and the recent keywords are those of the used stored interactions, each once |
| Memory.MemoryManager.DecayAll | project_nemi/MemoryManager.php:128-132 | every stored interaction loses the damped or the full decay according to whether it shares a keyword with the recent keywords |
| Memory.MemoryManager.TouchKeywords | project_nemi/MemoryManager.php:156-171 | the index becomes `Touched` of the old index: each input keyword's entity is the old one (or a new `Concept` entity) counted, rewarded and linked to the id, and no other entity changes; the flag says whether an entity was created |
| Memory.MemoryManager.LinkFrom | project_nemi/MemoryManager.php:181-185 | only k1's links change, each other input keyword's link being bumped in input order |
| Memory.MemoryManager.LinkKeywords | project_nemi/MemoryManager.php:179-187 | the index becomes `Linked` of the old index: exactly the input keywords' entities get their links reinforced over the whole input, and no entity is created |
| Memory.MemoryManager.UpdateEntitiesFromInteraction | project_nemi/MemoryManager.php:154-188 | the index becomes `Indexed` of the old index, and the interaction gains `NOVELTY_BONUS` exactly when one of its keywords had no entity |
| Memory.MemoryManager.ApplyFeedback | project_nemi/MemoryManager.php:191-208 | the store becomes `AfterFeedback` of the old store |
| Memory.MemoryManager.StoredIds | project_nemi/MemoryManager.php:213 | every stored id, once each |
| Memory.MemoryManager.PruneMemory | project_nemi/MemoryManager.php:210-216 | the store after pruning meets the pruning policy with respect to the store before |
| Memory.MemoryManager.UpdateMemory | project_nemi/MemoryManager.php:114-151 | returns the new id; the index becomes `Indexed` of the old index with the new keywords; the store is a pruning of the rewarded, decayed store with the new record inserted; coverage of the store by the index and symmetry of links are preserved |

## Left out

- `loadMemory` and `saveMemory` (`project_nemi/MemoryManager.php:16-32`) are left out. They are file and JSON I/O plus a `ksort` for stable files. The manager is built from the stores as loaded.
- `getTimeAwareSystemPrompt` is left out: it returns a constant string.
- `project_nemi/GeminiClient.php`, `project_nemi/EmbeddingClient.php`, `project_nemi/index.php`, `project_nemi/test/train.php` and `project_nemi/test/test_index.php` are not part of this model. They are HTTP clients, presentation, and a classifier built on a library that is not available.
- `date`, `strtotime` and `uniqid` are parameters supplied by the caller.
- Memory.MemoryManager.UpdateMemory reads the clock once: the single `now` stands for every `date('c')` of one `updateMemory` (lines 121, 138 and 143), which PHP may stamp with different seconds.
- Scores are exact reals, not IEEE doubles, so rounding is not modelled.
- A `char` stands for one byte of a PHP string. `strtolower`, `\s` and `str_word_count` see only ASCII letters and ASCII white space, as they do in PHP's C locale.
- PHP turns numeric-string array keys into integer keys. The model keeps every key a string. No compared value changes as a result.
- Malformed stored records are not modelled: a record missing its keywords, or an entity missing its fields. Only a missing `relevance_score` or `context_used_ids` is modelled.
- Memory.MemoryManager.PruneMemory: the ids are taken in an arbitrary order, because the store is a map without PHP's insertion order. So when several interactions tie at the cut, which of them survive is left open. The policy (count, unchanged survivors, no evicted record above a kept one) is proved regardless.
- Memory.MemoryManager.UpdateEntitiesFromInteraction requires keywords that are distinct, lower-case and attached to a stored interaction. The private PHP function is only ever called that way, from `updateMemory` with `extractEntities` output. Its behaviour on other input is not modelled: a repeated keyword touched twice, or partial records created by writing through a missing key.
- Features this PHP code does not have, and so not modelled:
  - hybrid retrieval: embedding similarity fused with the lexical score;
  - stripping of URL-shaped text before tokenising;
  - tie-breaking by id;
  - a floor of recent memories.

  In the code, ranking is by stored score alone, in a stable sort.
