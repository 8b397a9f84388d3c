/**
 * The score rules of MemoryManager, stated as functions of the stores before an
 * operation: the reward/decay/insert cycle of updateMemory, the feedback rule of
 * applyFeedback and the pruning policy of pruneMemory.
 */
module Scoring {
  import opened Wrappers
  import opened Config
  import opened Seqs
  import opened Records
  import opened Keywords
  import opened EntityIndex
  import opened Retrieval

  /** The keywords of the used interactions that are still stored, one used id after the other. */
  function RecentTopics(I: map<Id, Interaction>, used: seq<Id>): seq<Key>
  {
    if used == [] then []
    else
      var u := used[|used| - 1];
      RecentTopics(I, used[..|used| - 1]) + (if u in I then I[u].keywords else [])
  }

  lemma {:induction false} RecentTopicsMembership(I: map<Id, Interaction>, used: seq<Id>, k: Key)
    ensures k in RecentTopics(I, used) <==> exists u :: u in used && u in I && k in I[u].keywords
  {
    if used != [] {
      var p, u := used[..|used| - 1], used[|used| - 1];
      RecentTopicsMembership(I, p, k);
      assert used == p + [u];
      if k in RecentTopics(I, used) && k !in RecentTopics(I, p) {
        assert u in used && u in I && k in I[u].keywords;
      }
    }
  }

  /** Some keyword of i is among topics: the `array_intersect` of the decay loop is not empty. */
  predicate OnTopic(i: Interaction, topics: seq<Key>)
  {
    exists k :: k in i.keywords && k in topics
  }

  /** The amount the decay loop subtracts from i. */
  function DecayOf(i: Interaction, topics: seq<Key>): real
  {
    if OnTopic(i, topics) then DECAY_SCORE * RECENT_TOPIC_DECAY_MODIFIER else DECAY_SCORE
  }

  /** i after being recalled `times` times at time now. */
  function Rewarded(i: Interaction, times: nat, now: string): Interaction
  {
    if times == 0 then i else AddScore(i, times as real * REWARD_SCORE).(lastAccessed := now)
  }

  /** The store after the reward loop of updateMemory. */
  function AfterRewards(I: map<Id, Interaction>, used: seq<Id>, now: string): (R: map<Id, Interaction>)
    ensures R.Keys == I.Keys
  {
    map id | id in I :: Rewarded(I[id], Count(used, id), now)
  }

  /** The decay loop of updateMemory over the store R, with the recent keywords topics. */
  function Decayed(R: map<Id, Interaction>, topics: seq<Key>): (D: map<Id, Interaction>)
    ensures D.Keys == R.Keys
  {
    map id | id in R :: AddScore(R[id], -DecayOf(R[id], topics))
  }

  /** The store after the reward loop and the decay loop of updateMemory. */
  function AfterDecay(I: map<Id, Interaction>, used: seq<Id>, now: string): map<Id, Interaction>
  {
    Decayed(AfterRewards(I, used, now), RecentTopics(I, used))
  }

  /** The decay depends on the recent keywords only through which keywords they are (`array_unique` changes nothing). */
  lemma DecayedSameTopics(R: map<Id, Interaction>, t1: seq<Key>, t2: seq<Key>)
    requires forall k :: k in t1 <==> k in t2
    ensures Decayed(R, t1) == Decayed(R, t2)
  {
    forall id | id in R ensures DecayOf(R[id], t1) == DecayOf(R[id], t2) {
      assert OnTopic(R[id], t1) <==> OnTopic(R[id], t2);
    }
  }

  /** One more recall: one more reward, and the access time is now. */
  lemma RewardedStep(i: Interaction, times: nat, now: string)
    ensures Rewarded(i, times + 1, now) == AddScore(Rewarded(i, times, now), REWARD_SCORE).(lastAccessed := now)
  {
  }

  lemma RecentTopicsStep(I: map<Id, Interaction>, used: seq<Id>, n: nat)
    requires n < |used|
    ensures RecentTopics(I, used[..n + 1])
            == RecentTopics(I, used[..n]) + (if used[n] in I then I[used[n]].keywords else [])
  {
    assert used[..n + 1][..n] == used[..n];
  }

  /** The record updateMemory creates for a new turn. */
  function NewRecord(userInput: string, aiOutput: string, used: seq<Id>, now: string): Interaction
  {
    Interaction(now, userInput, ExtractEntities(userInput), aiOutput, Some(INITIAL_SCORE), now, Some(used))
  }

  /**
   * The interaction store of updateMemory just before pruning: rewarded,
   * decayed, and with the new record rec inserted under newId, with the novelty
   * bonus when one of its keywords has no entity in E.
   */
  function Staged(I: map<Id, Interaction>, E: map<Key, Entity>, rec: Interaction,
                  used: seq<Id>, newId: Id, now: string): map<Id, Interaction>
  {
    AfterDecay(I, used, now)[newId := if IntroducesEntity(E, rec.keywords) then AddScore(rec, NOVELTY_BONUS) else rec]
  }

  /**
   * The decay rule: every stored interaction ends the reward and decay loops
   * with its old score, plus the reward once per occurrence of its id among the
   * used ids, minus the damped decay when one of its keywords is a keyword of a
   * used interaction and the full decay otherwise. Only the score and, when it
   * was used, the access time change.
   */
  lemma DecayedScore(I: map<Id, Interaction>, used: seq<Id>, now: string, id: Id)
    requires id in I
    ensures id in AfterDecay(I, used, now)
    ensures var j := AfterDecay(I, used, now)[id];
      && j.relevanceScore.Some?
      && Base(j) == Base(I[id]) + Count(used, id) as real * REWARD_SCORE
                    - (if exists k, u :: k in I[id].keywords && u in used && u in I && k in I[u].keywords
                       then DECAY_SCORE * RECENT_TOPIC_DECAY_MODIFIER else DECAY_SCORE)
      && j.lastAccessed == (if id in used then now else I[id].lastAccessed)
      && j.(relevanceScore := I[id].relevanceScore, lastAccessed := I[id].lastAccessed) == I[id]
  {
    var topics := RecentTopics(I, used);
    forall k ensures k in topics <==> exists u :: u in used && u in I && k in I[u].keywords {
      RecentTopicsMembership(I, used, k);
    }
  }

  /** Interactions other than the new one are exactly as the reward and decay loops left them. */
  lemma StagedOld(I: map<Id, Interaction>, E: map<Key, Entity>, rec: Interaction,
                  used: seq<Id>, newId: Id, now: string, id: Id)
    requires id in I && id != newId
    ensures id in Staged(I, E, rec, used, newId, now)
    ensures Staged(I, E, rec, used, newId, now)[id] == AfterDecay(I, used, now)[id]
  {
  }

  /** Rewards, decay and the new record change no stored interaction's keywords. */
  lemma StagedKeepsKeywords(I: map<Id, Interaction>, E: map<Key, Entity>, rec: Interaction,
                            used: seq<Id>, newId: Id, now: string, id: Id)
    requires id in I && id != newId
    ensures id in Staged(I, E, rec, used, newId, now)
    ensures Staged(I, E, rec, used, newId, now)[id].keywords == I[id].keywords
  {
    var R := AfterRewards(I, used, now);
    assert R[id].keywords == I[id].keywords;
    assert AfterDecay(I, used, now)[id].keywords == R[id].keywords;
  }

  /** Exactly one id is added to the store: newId. */
  lemma StagedKeys(I: map<Id, Interaction>, E: map<Key, Entity>, rec: Interaction,
                   used: seq<Id>, newId: Id, now: string)
    ensures Staged(I, E, rec, used, newId, now).Keys == I.Keys + {newId}
    ensures newId !in I ==> |Staged(I, E, rec, used, newId, now)| == |I| + 1
  {
    var D := AfterDecay(I, used, now);
    var S := Staged(I, E, rec, used, newId, now);
    assert S == D[newId := S[newId]];
    InsertKeys(D, I.Keys, newId, S[newId]);
  }

  /**
   * The new turn is stored under newId, undecayed, with its keywords, the ids
   * it used as context, and the initial score plus the novelty bonus exactly
   * when one of its keywords had no entity.
   */
  lemma StagedNew(I: map<Id, Interaction>, E: map<Key, Entity>, userInput: string, aiOutput: string,
                  used: seq<Id>, newId: Id, now: string)
    ensures var S := Staged(I, E, NewRecord(userInput, aiOutput, used, now), used, newId, now);
      && newId in S
      && S[newId].keywords == ExtractEntities(userInput)
      && S[newId].userInputRaw == userInput && S[newId].aiOutput == aiOutput
      && S[newId].timestamp == now && S[newId].lastAccessed == now
      && S[newId].contextUsedIds == Some(used)
      && S[newId].relevanceScore
         == Some(INITIAL_SCORE + if exists k :: k in ExtractEntities(userInput) && k !in E then NOVELTY_BONUS else 0.0)
  {
    var rec := NewRecord(userInput, aiOutput, used, now);
    var x := if IntroducesEntity(E, rec.keywords) then AddScore(rec, NOVELTY_BONUS) else rec;
    assert Staged(I, E, rec, used, newId, now)[newId] == x;
    assert x.(relevanceScore := rec.relevanceScore) == rec;
  }

  /**
   * A recalled memory next to an unrelated one: the recalled memory gains (reward minus damped decay) and the unrelated one
   * loses exactly the full decay.
   */
  lemma RecalledGainsUnrelatedLoses(I: map<Id, Interaction>, used: seq<Id>, now: string, r: Id, x: Id)
    requires r in I && x in I
    requires r in used && x !in used
    requires forall u, k :: u in used && u in I && k in I[u].keywords ==> k !in I[x].keywords
    ensures Base(AfterDecay(I, used, now)[r]) > Base(I[r])
    ensures Base(AfterDecay(I, used, now)[x]) == Base(I[x]) - DECAY_SCORE
  {
    DecayedScore(I, used, now, r);
    DecayedScore(I, used, now, x);
  }

  /** The signed adjustment of one feedback event. */
  function Adjustment(isGood: bool): real
  {
    if isGood then USER_FEEDBACK_REWARD else USER_FEEDBACK_PENALTY
  }

  /** The store after applyFeedback(id, isGood). */
  function AfterFeedback(I: map<Id, Interaction>, id: Id, isGood: bool): map<Id, Interaction>
  {
    if id !in I then I
    else
      var adj := Adjustment(isGood);
      Spread(I[id := AddScore(I[id], adj)], ContextOf(I[id]), HalfAdjustment(isGood))
  }

  /** The context loop of applyFeedback: each listed id that is stored moves by d, one listing after the other. */
  function Spread(T: map<Id, Interaction>, ctx: seq<Id>, d: real): (S: map<Id, Interaction>)
    ensures S.Keys == T.Keys
  {
    if ctx == [] then T
    else
      var S := Spread(T, ctx[..|ctx| - 1], d);
      var x := ctx[|ctx| - 1];
      if x in S then S[x := AddScore(S[x], d)] else S
  }

  lemma SpreadStep(T: map<Id, Interaction>, ctx: seq<Id>, d: real, n: nat)
    requires n < |ctx|
    ensures Spread(T, ctx[..n + 1], d)
            == if ctx[n] in T then Spread(T, ctx[..n], d)[ctx[n] := AddScore(Spread(T, ctx[..n], d)[ctx[n]], d)]
               else Spread(T, ctx[..n], d)
  {
    assert ctx[..n + 1][..n] == ctx[..n];
  }

  /** The half adjustment of one feedback event. */
  function HalfAdjustment(isGood: bool): (h: real)
    ensures h == Adjustment(isGood) / 2.0
  {
    if isGood then USER_FEEDBACK_REWARD / 2.0 else USER_FEEDBACK_PENALTY / 2.0
  }

  /** c listings of an adjustment d, added one after the other. */
  function Times(c: nat, d: real): real
  {
    if c == 0 then 0.0 else Times(c - 1, d) + d
  }

  /** Adding d c times is moving by c * d. */
  lemma {:induction false} TimesIsProduct(c: nat, d: real)
    ensures Times(c, d) == c as real * d
  {
    if c > 0 {
      TimesIsProduct(c - 1, d);
      assert (c - 1) as real * d + d == c as real * d;
    }
  }

  /** In closed form: a stored interaction listed c times in ctx moves by c adjustments d; one not listed is untouched. */
  lemma {:induction false} SpreadCount(T: map<Id, Interaction>, ctx: seq<Id>, d: real, j: Id)
    requires j in T
    ensures Count(ctx, j) == 0 ==> Spread(T, ctx, d)[j] == T[j]
    ensures Count(ctx, j) > 0 ==> Spread(T, ctx, d)[j] == AddScore(T[j], Times(Count(ctx, j), d))
  {
    if ctx != [] {
      var p, x := ctx[..|ctx| - 1], ctx[|ctx| - 1];
      SpreadCount(T, p, d, j);
      var S := Spread(T, p, d);
      var c := Count(p, j);
      assert Count(ctx, j) == c + (if x == j then 1 else 0);
      if x == j {
        assert Spread(T, ctx, d)[j] == AddScore(S[j], d);
        assert Times(c + 1, d) == Times(c, d) + d;
        if c > 0 {
          AddScoreTwice(T[j], Times(c, d), d);
        }
      } else {
        assert Spread(T, ctx, d)[j] == S[j];
      }
    }
  }

  /** One pass of the reward loop, for the record under j. */
  lemma AfterRewardsStepAt(I: map<Id, Interaction>, used: seq<Id>, now: string, n: nat, j: Id)
    requires n < |used| && j in I
    ensures j in AfterRewards(I, used[..n + 1], now) && j in AfterRewards(I, used[..n], now)
    ensures j == used[n] ==> AfterRewards(I, used[..n + 1], now)[j]
                             == AddScore(AfterRewards(I, used[..n], now)[j], REWARD_SCORE).(lastAccessed := now)
    ensures j != used[n] ==> AfterRewards(I, used[..n + 1], now)[j] == AfterRewards(I, used[..n], now)[j]
  {
    var p, q := used[..n], used[..n + 1];
    CountStep(used, n, j);
    var c := Count(p, j);
    assert AfterRewards(I, q, now)[j] == Rewarded(I[j], Count(q, j), now);
    assert AfterRewards(I, p, now)[j] == Rewarded(I[j], c, now);
    if j == used[n] {
      RewardedStep(I[j], c, now);
    }
  }

  lemma AfterRewardsStep(I: map<Id, Interaction>, used: seq<Id>, now: string, n: nat)
    requires n < |used|
    ensures used[n] in I ==>
              AfterRewards(I, used[..n + 1], now)
              == AfterRewards(I, used[..n], now)[used[n] := AddScore(AfterRewards(I, used[..n], now)[used[n]], REWARD_SCORE).(lastAccessed := now)]
    ensures used[n] !in I ==> AfterRewards(I, used[..n + 1], now) == AfterRewards(I, used[..n], now)
  {
    var after, before := AfterRewards(I, used[..n + 1], now), AfterRewards(I, used[..n], now);
    var x := used[n];
    if x in I {
      var M := before[x := AddScore(before[x], REWARD_SCORE).(lastAccessed := now)];
      forall j | j in I ensures after[j] == M[j] {
        AfterRewardsStepAt(I, used, now, n, j);
      }
      assert after.Keys == M.Keys;
    } else {
      forall j | j in I ensures after[j] == before[j] {
        AfterRewardsStepAt(I, used, now, n, j);
      }
    }
  }

  /**
   * Feedback on a stored answer: the answer moves by the full adjustment, each
   * stored interaction it used as context by half of it (once per listing), and
   * every other interaction keeps its record; feedback on an unknown id changes nothing.
   */
  lemma FeedbackEffect(I: map<Id, Interaction>, id: Id, isGood: bool, j: Id)
    ensures AfterFeedback(I, id, isGood).Keys == I.Keys
    ensures id !in I ==> AfterFeedback(I, id, isGood) == I
    ensures id in I && j == id ==>
      AfterFeedback(I, id, isGood)[j]
      == AddScore(I[j], Adjustment(isGood) + Times(Count(ContextOf(I[id]), j), HalfAdjustment(isGood)))
    ensures id in I && j in I && j != id && j in ContextOf(I[id]) ==>
      AfterFeedback(I, id, isGood)[j] == AddScore(I[j], Times(Count(ContextOf(I[id]), j), HalfAdjustment(isGood)))
    ensures id in I && j in I && j != id && j !in ContextOf(I[id]) ==> AfterFeedback(I, id, isGood)[j] == I[j]
  {
    if id in I && j in I {
      var adj := Adjustment(isGood);
      var T := I[id := AddScore(I[id], adj)];
      var ctx, h := ContextOf(I[id]), HalfAdjustment(isGood);
      assert AfterFeedback(I, id, isGood) == Spread(T, ctx, h);
      SpreadCount(T, ctx, h, j);
      var c := Count(ctx, j);
      if j == id {
        if c > 0 {
          AddScoreTwice(I[id], adj, Times(c, h));
        } else {
          assert adj + Times(c, h) == adj;
        }
      }
    }
  }

  /**
   * A bad answer that used A and B: the answer loses 0.5
   * and A and B lose exactly 0.25 each.
   */
  lemma FeedbackOnTwoContextMemories(I: map<Id, Interaction>, id: Id, a: Id, b: Id)
    requires id in I && a in I && b in I
    requires ContextOf(I[id]) == [a, b] && a != b && id != a && id != b
    ensures var F := AfterFeedback(I, id, false);
      && Base(F[id]) == Base(I[id]) - 0.5
      && Base(F[a]) == Base(I[a]) - 0.25
      && Base(F[b]) == Base(I[b]) - 0.25
  {
    assert [a, b][..1] == [a];
    assert Count([a, b], a) == 1 && Count([a, b], b) == 1;
    assert Count([a, b], id) == 0;
    assert Times(1, HalfAdjustment(false)) == -0.25;
    FeedbackEffect(I, id, false, id);
    FeedbackEffect(I, id, false, a);
    FeedbackEffect(I, id, false, b);
  }

  /**
   * The pruning policy: a store within the threshold is kept as it is; a larger
   * one is cut to exactly the threshold, the survivors keep their records, and no
   * evicted interaction ranks strictly higher than a kept one.
   */
  ghost predicate IsPruningOf(before: map<Id, Interaction>, after: map<Id, Interaction>)
  {
    if |before| <= PRUNING_THRESHOLD then after == before
    else
      && after.Keys <= before.Keys
      && |after| == PRUNING_THRESHOLD
      && (forall id :: id in after ==> after[id] == before[id])
      && (forall e, k :: e in before && e !in after && k in after ==> Rank(before[e]) <= Rank(after[k]))
  }

  /**
   * The cut of pruneMemory meets the policy: keeping the first PRUNING_THRESHOLD
   * ids of a ranking of the whole store, highest score first, keeps exactly that
   * many records, unchanged, and evicts none that ranks above a kept one.
   */
  lemma KeepTopIsPruning(I: map<Id, Interaction>, ranked: seq<Id>)
    requires |I| > PRUNING_THRESHOLD
    requires AllStored(I, ranked) && Distinct(ranked) && SortedByRank(I, ranked)
    requires forall id :: id in I ==> id in ranked
    ensures PRUNING_THRESHOLD <= |ranked|
    ensures IsPruningOf(I, map id | id in ranked[..PRUNING_THRESHOLD] :: I[id])
  {
    RankingLength(I, ranked);
    var n := PRUNING_THRESHOLD;
    KeptSize(I, ranked[..n]);
    forall e, k | e in I && e !in ranked[..n] && k in ranked[..n]
      ensures Rank(I[e]) <= Rank(I[k])
    {
      KeptOutranks(I, ranked, n, e, k);
    }
  }

  /** A ranking of the whole store without repetitions lists every stored id once. */
  lemma RankingLength(I: map<Id, Interaction>, ranked: seq<Id>)
    requires AllStored(I, ranked) && Distinct(ranked)
    requires forall id :: id in I ==> id in ranked
    ensures |ranked| == |I|
  {
    assert (set x | x in ranked) == I.Keys;
    DistinctCardinality(ranked);
  }

  /** Keeping the records of n distinct stored ids keeps n records. */
  lemma KeptSize(I: map<Id, Interaction>, kept: seq<Id>)
    requires AllStored(I, kept) && Distinct(kept)
    ensures |map id | id in kept :: I[id]| == |kept|
  {
    var after := map id | id in kept :: I[id];
    DistinctCardinality(kept);
    assert after.Keys == set x | x in kept;
  }

  /** In a ranking without repetitions, an id past position n ranks no higher than one before it. */
  lemma KeptOutranks(I: map<Id, Interaction>, ranked: seq<Id>, n: nat, e: Id, k: Id)
    requires AllStored(I, ranked) && SortedByRank(I, ranked) && n <= |ranked|
    requires e in ranked && e !in ranked[..n] && k in ranked[..n]
    ensures Rank(I[e]) <= Rank(I[k])
  {
    var p :| 0 <= p < |ranked| && ranked[p] == e;
    var q :| 0 <= q < n && ranked[..n][q] == k;
  }

  /** Every keyword of every stored interaction has an entity that lists the interaction. */
  ghost predicate Covered(I: map<Id, Interaction>, E: map<Key, Entity>)
  {
    forall id, k :: id in I && k in I[id].keywords ==> k in E && id in E[k].mentionedIn
  }

  /** Recording a turn keeps the index covering the store. */
  lemma StagedCovered(I: map<Id, Interaction>, E: map<Key, Entity>, rec: Interaction,
                      used: seq<Id>, newId: Id, now: string)
    requires Covered(I, E) && Distinct(rec.keywords)
    ensures Covered(Staged(I, E, rec, used, newId, now), Indexed(E, rec.keywords, newId))
  {
    var S := Staged(I, E, rec, used, newId, now);
    var ks := rec.keywords;
    var E' := Indexed(E, ks, newId);
    forall id, k | id in S && k in S[id].keywords
      ensures k in E' && id in E'[k].mentionedIn
    {
      if id == newId {
        assert S[id].keywords == ks;
        IndexedKeyword(E, ks, newId, k);
      } else {
        StagedKeepsKeywords(I, E, rec, used, newId, now, id);
        assert k in E && id in E[k].mentionedIn;
        if k in ks {
          IndexedKeyword(E, ks, newId, k);
          var m := E[k].mentionedIn;
          var i :| 0 <= i < |m| && m[i] == id;
          assert E'[k].mentionedIn[i] == id;
        } else {
          IndexedOther(E, ks, newId, k);
        }
      }
    }
  }

  /** Pruning only removes interactions, so the index still covers the store. */
  lemma PruningCovered(before: map<Id, Interaction>, after: map<Id, Interaction>, E: map<Key, Entity>)
    requires Covered(before, E) && IsPruningOf(before, after)
    ensures Covered(after, E)
  {
  }

  /** Feedback changes only scores, so the index still covers the store. */
  lemma FeedbackCovered(I: map<Id, Interaction>, E: map<Key, Entity>, id: Id, isGood: bool)
    requires Covered(I, E)
    ensures Covered(AfterFeedback(I, id, isGood), E)
  {
    forall j | j in I ensures AfterFeedback(I, id, isGood)[j].keywords == I[j].keywords {
      FeedbackEffect(I, id, isGood, j);
    }
  }
}
