/**
 * The memory engine: class MemoryManager with its two stores, `interactions`
 * (id -> record) and `entities` (keyword -> record), and the operations that
 * read and update them in place.
 *
 * The clock (`date('c')`), `uniqid` and the timestamp rendering of recalled
 * memories are supplied by the caller as `now`, `newId` and `formatTime`.
 */
module Memory {
  import opened Wrappers
  import opened Config
  import opened Seqs
  import opened Records
  import opened Keywords
  import opened WordCount
  import opened EntityIndex
  import opened Retrieval
  import opened Scoring

  class MemoryManager {
    var interactions: map<Id, Interaction>
    var entities: map<Key, Entity>

    /** A manager over the stores as loaded from storage. */
    constructor (interactions: map<Id, Interaction>, entities: map<Key, Entity>)
      ensures this.interactions == interactions && this.entities == entities
    {
      this.interactions := interactions;
      this.entities := entities;
    }

    /**
     * The candidate ranking of getRelevantContext: the ids listed under the
     * widened query keywords, each once, restricted to stored interactions and
     * sorted highest score first.
     */
    method RankCandidates(userInput: string) returns (ranked: seq<Id>)
      ensures ranked == Ranked(interactions, entities, userInput)
    {
      var inputEntities := ExtractEntities(userInput);
      var searchEntities := NormalizeAndExpandEntities(entities, inputEntities);
      var relevantInteractionIds := CollectMentions(searchEntities);
      var relevantMemories := KeepStored(Unique(relevantInteractionIds));
      ranked := SortByRank(interactions, relevantMemories);
    }

    /** The `mentioned_in` lists of the search keywords that have an entity, concatenated in order. */
    method CollectMentions(searchEntities: seq<Key>) returns (relevantInteractionIds: seq<Id>)
      ensures relevantInteractionIds == MentionedIn(entities, searchEntities)
    {
      relevantInteractionIds := [];
      var n := 0;
      while n < |searchEntities|
        invariant 0 <= n <= |searchEntities|
        invariant relevantInteractionIds == MentionedIn(entities, searchEntities[..n])
      {
        var entityKey := searchEntities[n];
        if entityKey in entities {
          relevantInteractionIds := relevantInteractionIds + entities[entityKey].mentionedIn;
        }
        MentionedInStep(entities, searchEntities, n);
        n := n + 1;
      }
      assert searchEntities[..n] == searchEntities;
    }

    /** The ids that still have a stored interaction, in order. */
    method KeepStored(ids: seq<Id>) returns (relevantMemories: seq<Id>)
      ensures relevantMemories == Existing(interactions, ids)
    {
      relevantMemories := [];
      var n := 0;
      while n < |ids|
        invariant 0 <= n <= |ids|
        invariant relevantMemories == Existing(interactions, ids[..n])
      {
        var id := ids[n];
        ExistingStep(interactions, ids, n);
        if id in interactions {
          relevantMemories := relevantMemories + [id];
        }
        n := n + 1;
      }
      assert ids[..n] == ids;
    }

    /**
     * The budget loop of getRelevantContext: lines of the ranked ids are added in
     * order while the running word total stays within the budget, stopping at the
     * first line that does not fit.
     */
    method TakeWithinBudget(ranked: seq<Id>, formatTime: string -> string) returns (context: string, usedIds: seq<Id>)
      requires AllStored(interactions, ranked)
      ensures usedIds <= ranked && AllStored(interactions, usedIds)
      ensures Distinct(ranked) && SortedByRank(interactions, ranked) ==>
        Distinct(usedIds) && SortedByRank(interactions, usedIds)
      ensures TotalWords(interactions, usedIds, formatTime) <= CONTEXT_TOKEN_BUDGET
      ensures |usedIds| < |ranked| ==>
        TotalWords(interactions, usedIds, formatTime) + LineWords(interactions, ranked[|usedIds|], formatTime) > CONTEXT_TOKEN_BUDGET
      ensures context == Lines(interactions, usedIds, formatTime)
    {
      context := "";
      var tokenCount := 0;
      usedIds := [];
      var n := 0;
      while n < |ranked|
        invariant 0 <= n <= |ranked|
        invariant usedIds == ranked[..n] && AllStored(interactions, usedIds)
        invariant tokenCount == TotalWords(interactions, usedIds, formatTime) <= CONTEXT_TOKEN_BUDGET
        invariant context == Lines(interactions, usedIds, formatTime)
      {
        var memoryText := RenderLine(interactions[ranked[n]], formatTime);
        var memoryTokenCount := StrWordCount(memoryText);
        if tokenCount + memoryTokenCount <= CONTEXT_TOKEN_BUDGET {
          context := context + memoryText;
          tokenCount := tokenCount + memoryTokenCount;
          PrefixStep(ranked, n);
          usedIds := usedIds + [ranked[n]];
          n := n + 1;
        } else {
          break;
        }
      }
      if Distinct(ranked) && SortedByRank(interactions, ranked) {
        PrefixSortedDistinct(interactions, ranked, n);
      }
    }

    /**
     * Recalls memories for userInput: the stored interactions mentioned by a
     * keyword of the widened query, highest score first, are taken while their
     * lines fit the word budget, stopping at the first that does not fit. The
     * returned text never exceeds the budget in words; with nothing recalled it
     * is the fixed "no memories" line.
     */
    method GetRelevantContext(userInput: string, formatTime: string -> string) returns (context: string, usedIds: seq<Id>)
      ensures usedIds <= Ranked(interactions, entities, userInput)
      ensures AllStored(interactions, usedIds)
      ensures Distinct(usedIds) && SortedByRank(interactions, usedIds)
      ensures TotalWords(interactions, usedIds, formatTime) <= CONTEXT_TOKEN_BUDGET
      ensures var ranked := Ranked(interactions, entities, userInput);
        |usedIds| < |ranked| ==>
          TotalWords(interactions, usedIds, formatTime) + LineWords(interactions, ranked[|usedIds|], formatTime) > CONTEXT_TOKEN_BUDGET
      ensures context == if usedIds == [] then NO_MEMORIES else Lines(interactions, usedIds, formatTime)
      ensures StrWordCount(context) <= CONTEXT_TOKEN_BUDGET
    {
      var ranked := RankCandidates(userInput);
      RankedSortedDistinct(interactions, entities, userInput);
      context, usedIds := TakeWithinBudget(ranked, formatTime);
      if context == [] {
        context := NO_MEMORIES;
        NoMemoriesFits();
      } else {
        LinesWordCount(interactions, usedIds, formatTime);
      }
    }

    /**
     * The reward loop of updateMemory: every stored interaction among the used
     * ids gains the reward once per listing and is stamped with now; the result
     * is the keywords of those interactions, each once.
     */
    method RewardUsed(usedIds: seq<Id>, now: string) returns (recentEntities: seq<Key>)
      modifies this`interactions
      ensures interactions == AfterRewards(old(interactions), usedIds, now)
      ensures Distinct(recentEntities)
      ensures forall k :: k in recentEntities <==> k in RecentTopics(old(interactions), usedIds)
    {
      ghost var I0 := interactions;
      recentEntities := [];
      var n := 0;
      while n < |usedIds|
        invariant 0 <= n <= |usedIds|
        invariant interactions == AfterRewards(I0, usedIds[..n], now)
        invariant recentEntities == RecentTopics(I0, usedIds[..n])
      {
        var id := usedIds[n];
        AfterRewardsStep(I0, usedIds, now, n);
        RecentTopicsStep(I0, usedIds, n);
        if id in interactions {
          assert interactions[id].keywords == I0[id].keywords;
          interactions := interactions[id := AddScore(interactions[id], REWARD_SCORE).(lastAccessed := now)];
          recentEntities := recentEntities + interactions[id].keywords;
        }
        n := n + 1;
      }
      assert usedIds[..n] == usedIds;
      recentEntities := Unique(recentEntities);
    }

    /**
     * The decay loop of updateMemory: every stored interaction loses the damped
     * decay when it shares a keyword with recentEntities and the full decay otherwise.
     */
    method DecayAll(recentEntities: seq<Key>)
      modifies this`interactions
      ensures interactions == Decayed(old(interactions), recentEntities)
    {
      ghost var R := interactions;
      var pending := interactions.Keys;
      while pending != {}
        invariant pending <= R.Keys && interactions.Keys == R.Keys
        invariant forall id :: id in R ==>
          interactions[id] == if id in pending then R[id] else AddScore(R[id], -DecayOf(R[id], recentEntities))
        decreases pending
      {
        var id :| id in pending;
        var decay := DecayOf(interactions[id], recentEntities);
        interactions := interactions[id := AddScore(interactions[id], -decay)];
        pending := pending - {id};
      }
    }

    /**
     * applyFeedback: an unknown id changes nothing; otherwise the answer moves by
     * the adjustment and every stored interaction it used as context by half of
     * it, once per listing.
     */
    method ApplyFeedback(interactionId: Id, isGood: bool)
      modifies this`interactions
      ensures interactions == AfterFeedback(old(interactions), interactionId, isGood)
    {
      if interactionId !in interactions {
        return;
      }
      var adjustment := if isGood then USER_FEEDBACK_REWARD else USER_FEEDBACK_PENALTY;
      interactions := interactions[interactionId := AddScore(interactions[interactionId], adjustment)];
      var contextIds := ContextOf(interactions[interactionId]);
      ghost var T := interactions;
      var n := 0;
      while n < |contextIds|
        invariant 0 <= n <= |contextIds|
        invariant interactions == Spread(T, contextIds[..n], adjustment / 2.0)
      {
        var id := contextIds[n];
        SpreadStep(T, contextIds, adjustment / 2.0, n);
        if id in interactions {
          interactions := interactions[id := AddScore(interactions[id], adjustment / 2.0)];
        }
        n := n + 1;
      }
      assert contextIds[..n] == contextIds;
    }

    /**
     * The first loop of updateEntitiesFromInteraction: each keyword's entity is
     * created if missing, counted, rewarded and linked to the interaction; the
     * result says whether an entity had to be created.
     */
    method TouchKeywords(keywords: seq<Key>, interactionId: Id) returns (isNovel: bool)
      modifies this`entities
      requires Distinct(keywords) && forall k :: k in keywords ==> IsLower(k)
      ensures isNovel == IntroducesEntity(old(entities), keywords)
      ensures entities == Touched(old(entities), keywords, interactionId)
    {
      ghost var E0 := entities;
      isNovel := false;
      var n := 0;
      while n < |keywords|
        invariant 0 <= n <= |keywords|
        invariant isNovel == IntroducesEntity(E0, keywords[..n])
        invariant entities == Touched(E0, keywords[..n], interactionId)
      {
        var keyword := keywords[n];
        var entityKey := Lower(keyword);
        LowerOfLower(keyword);
        TouchedStep(E0, keywords, interactionId, n);
        IntroducesEntityStep(E0, keywords, n);
        ghost var M := entities;
        if entityKey !in entities {
          isNovel := true;
          entities := entities[entityKey := NewEntity(keyword)];
          OverwriteTwice(M, keyword, NewEntity(keyword), Touch(E0, keyword, interactionId));
        }
        var e := entities[entityKey];
        TouchOf(E0, keyword, interactionId, e);
        entities := entities[entityKey := e.(
          accessCount := e.accessCount + 1,
          relevanceScore := e.relevanceScore + REWARD_SCORE,
          mentionedIn := if interactionId in e.mentionedIn then e.mentionedIn else e.mentionedIn + [interactionId])];
        assert entities == M[keyword := Touch(E0, keyword, interactionId)];
        n := n + 1;
      }
      assert keywords[..n] == keywords;
    }

    /** The inner relationship loop for k1: the link from k1 to every other keyword is strengthened, in order. */
    method LinkFrom(k1: Key, keywords: seq<Key>)
      modifies this`entities
      requires k1 in entities
      ensures entities == old(entities)[k1 := old(entities)[k1].(relationships := Reinforce(old(entities)[k1].relationships, keywords, k1))]
    {
      ghost var E0 := entities;
      var j := 0;
      while j < |keywords|
        invariant 0 <= j <= |keywords|
        invariant entities == E0[k1 := E0[k1].(relationships := Reinforce(E0[k1].relationships, keywords[..j], k1))]
      {
        var k2 := keywords[j];
        ReinforceStep(E0[k1].relationships, keywords, k1, j);
        if k1 != k2 {
          var e := entities[k1];
          var e' := e.(relationships := Bump(e.relationships, k2, RELATIONSHIP_STRENGTH_INCREMENT));
          assert e' == E0[k1].(relationships := Reinforce(E0[k1].relationships, keywords[..j + 1], k1));
          OverwriteTwice(E0, k1, e, e');
          entities := entities[k1 := e'];
        }
        j := j + 1;
      }
      assert keywords[..j] == keywords;
    }

    /** The nested relationship loops of updateEntitiesFromInteraction. */
    method LinkKeywords(keywords: seq<Key>)
      modifies this`entities
      requires Distinct(keywords) && forall k :: k in keywords ==> k in entities
      ensures entities == Linked(old(entities), keywords, keywords)
    {
      ghost var E0 := entities;
      var i := 0;
      while i < |keywords|
        invariant 0 <= i <= |keywords|
        invariant entities == Linked(E0, keywords[..i], keywords)
      {
        LinkedStep(E0, keywords, keywords, i);
        LinkFrom(keywords[i], keywords);
        i := i + 1;
      }
      assert keywords[..i] == keywords;
    }

    /**
     * updateEntitiesFromInteraction: the entity index becomes Indexed(old index),
     * and the interaction earns the novelty bonus exactly when one of its
     * keywords had no entity.
     */
    method UpdateEntitiesFromInteraction(keywords: seq<Key>, interactionId: Id)
      modifies this
      requires Distinct(keywords) && forall k :: k in keywords ==> IsLower(k)
      requires interactionId in interactions
      ensures entities == Indexed(old(entities), keywords, interactionId)
      ensures interactions == old(interactions)[interactionId :=
        if IntroducesEntity(old(entities), keywords) then AddScore(old(interactions)[interactionId], NOVELTY_BONUS)
        else old(interactions)[interactionId]]
    {
      var isNovel := TouchKeywords(keywords, interactionId);
      if isNovel {
        interactions := interactions[interactionId := AddScore(interactions[interactionId], NOVELTY_BONUS)];
      }
      if |keywords| > 1 {
        LinkKeywords(keywords);
      }
    }

    /** The ids of the store, each once. */
    method StoredIds() returns (ids: seq<Id>)
      ensures Distinct(ids)
      ensures forall id :: id in ids <==> id in interactions
    {
      ids := [];
      var pending := interactions.Keys;
      while pending != {}
        invariant pending <= interactions.Keys
        invariant Distinct(ids)
        invariant forall id :: id in ids <==> id in interactions && id !in pending
        decreases pending
      {
        var id :| id in pending;
        ids := ids + [id];
        pending := pending - {id};
      }
    }

    /**
     * pruneMemory: a store above the threshold keeps only its PRUNING_THRESHOLD
     * highest-ranked interactions.
     */
    method PruneMemory()
      modifies this`interactions
      ensures IsPruningOf(old(interactions), interactions)
    {
      if |interactions| > PRUNING_THRESHOLD {
        var ids := StoredIds();
        var ranked := SortByRank(interactions, ids);
        PermutationOfDistinct(ids, ranked);
        KeepTopIsPruning(interactions, ranked);
        var kept := ranked[..PRUNING_THRESHOLD];
        interactions := map id | id in kept :: interactions[id];
      }
    }

    /**
     * updateMemory: rewards the used interactions, decays every interaction,
     * stores the new turn under newId, indexes its keywords and prunes. The
     * index keeps covering the store and keeps its links symmetric.
     */
    method UpdateMemory(userInput: string, aiOutput: string, usedIds: seq<Id>, newId: Id, now: string) returns (id: Id)
      modifies this
      ensures id == newId
      ensures entities == Indexed(old(entities), ExtractEntities(userInput), newId)
      ensures IsPruningOf(Staged(old(interactions), old(entities), NewRecord(userInput, aiOutput, usedIds, now), usedIds, newId, now),
                          interactions)
      ensures Covered(old(interactions), old(entities)) ==> Covered(interactions, entities)
      ensures Symmetric(old(entities)) ==> Symmetric(entities)
    {
      ghost var I0, E0 := interactions, entities;
      var recentEntities := RewardUsed(usedIds, now);
      DecayAll(recentEntities);
      DecayedSameTopics(AfterRewards(I0, usedIds, now), recentEntities, RecentTopics(I0, usedIds));
      ghost var D := interactions;
      assert D == AfterDecay(I0, usedIds, now);
      var keywords := ExtractEntities(userInput);
      var rec := Interaction(now, userInput, keywords, aiOutput, Some(INITIAL_SCORE), now, Some(usedIds));
      interactions := interactions[newId := rec];
      ghost var P := interactions;
      UpdateEntitiesFromInteraction(keywords, newId);
      ghost var S := interactions;
      ghost var stored := if IntroducesEntity(E0, keywords) then AddScore(rec, NOVELTY_BONUS) else rec;
      assert S == P[newId := stored];
      OverwriteTwice(D, newId, rec, stored);
      assert S == Staged(I0, E0, rec, usedIds, newId, now);
      if Covered(I0, E0) {
        StagedCovered(I0, E0, rec, usedIds, newId, now);
      }
      if Symmetric(E0) {
        IndexedSymmetric(E0, keywords, newId);
      }
      PruneMemory();
      if Covered(S, entities) {
        PruningCovered(S, interactions, entities);
      }
      id := newId;
    }
  }
}
