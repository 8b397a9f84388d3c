/**
 * The entity index as MemoryManager::updateEntitiesFromInteraction leaves it:
 * every keyword of a new input is touched (created if unseen, counted, rewarded,
 * linked to the new interaction) and every ordered pair of distinct keywords of
 * that input has its link strengthened.
 */
module EntityIndex {
  import opened Config
  import opened Seqs
  import opened Records

  /** The record created for a keyword seen for the first time. */
  function NewEntity(k: Key): Entity
  {
    Entity(k, "Concept", 0, INITIAL_SCORE, [], [])
  }

  /** The entity of k after the first loop has handled k for interaction id. */
  function Touch(E: map<Key, Entity>, k: Key, id: Id): Entity
  {
    var e := if k in E then E[k] else NewEntity(k);
    e.(accessCount := e.accessCount + 1,
       relevanceScore := e.relevanceScore + REWARD_SCORE,
       mentionedIn := if id in e.mentionedIn then e.mentionedIn else e.mentionedIn + [id])
  }

  /** The field updates of the first loop, applied to the entity k has before them, give Touch. */
  lemma TouchOf(E: map<Key, Entity>, k: Key, id: Id, e: Entity)
    requires e == if k in E then E[k] else NewEntity(k)
    ensures Touch(E, k, id) == e.(accessCount := e.accessCount + 1,
                                  relevanceScore := e.relevanceScore + REWARD_SCORE,
                                  mentionedIn := if id in e.mentionedIn then e.mentionedIn else e.mentionedIn + [id])
  {
  }

  /** The links of keyword self after the inner relationship loop has run over ks. */
  function Reinforce(rel: seq<Link>, ks: seq<Key>, self: Key): seq<Link>
  {
    if ks == [] then rel
    else
      var r := Reinforce(rel, ks[..|ks| - 1], self);
      if ks[|ks| - 1] != self then Bump(r, ks[|ks| - 1], RELATIONSHIP_STRENGTH_INCREMENT) else r
  }

  lemma ReinforceStep(rel: seq<Link>, ks: seq<Key>, self: Key, n: nat)
    requires n < |ks|
    ensures ks[n] != self ==>
      Reinforce(rel, ks[..n + 1], self) == Bump(Reinforce(rel, ks[..n], self), ks[n], RELATIONSHIP_STRENGTH_INCREMENT)
    ensures ks[n] == self ==> Reinforce(rel, ks[..n + 1], self) == Reinforce(rel, ks[..n], self)
  {
    assert ks[..n + 1][..n] == ks[..n];
  }

  /** The entity index after the first loop has handled the keywords ks for interaction id. */
  function Touched(E: map<Key, Entity>, ks: seq<Key>, id: Id): map<Key, Entity>
  {
    map k | k in E.Keys + (set k | k in ks) :: if k in ks then Touch(E, k, id) else E[k]
  }

  /** The entity index after the relationship loops have run for the keywords outer of the input ks. */
  function Linked(E: map<Key, Entity>, outer: seq<Key>, ks: seq<Key>): map<Key, Entity>
  {
    map k | k in E :: if k in outer then E[k].(relationships := Reinforce(E[k].relationships, ks, k)) else E[k]
  }

  /** The entity index after an input with keywords ks was recorded as interaction id. */
  function Indexed(E: map<Key, Entity>, ks: seq<Key>, id: Id): map<Key, Entity>
  {
    var T := Touched(E, ks, id);
    if |ks| > 1 then Linked(T, ks, ks) else T
  }

  /** One pass of the first loop touches one more keyword and nothing else. */
  lemma TouchedStep(E: map<Key, Entity>, ks: seq<Key>, id: Id, n: nat)
    requires n < |ks| && Distinct(ks)
    ensures ks[n] !in ks[..n]
    ensures Touched(E, ks[..n + 1], id) == Touched(E, ks[..n], id)[ks[n] := Touch(E, ks[n], id)]
  {
    DistinctStep(ks, n);
    var A, B := Touched(E, ks[..n + 1], id), Touched(E, ks[..n], id)[ks[n] := Touch(E, ks[n], id)];
    forall k ensures k in A <==> k in B {
    }
    forall k | k in A ensures A[k] == B[k] {
    }
  }

  /** One pass of the outer relationship loop reinforces the links of one more keyword and nothing else. */
  lemma LinkedStep(E: map<Key, Entity>, outer: seq<Key>, ks: seq<Key>, i: nat)
    requires i < |outer| && Distinct(outer) && outer[i] in E
    ensures outer[i] !in outer[..i]
    ensures Linked(E, outer[..i + 1], ks)
            == Linked(E, outer[..i], ks)[outer[i] := E[outer[i]].(relationships := Reinforce(E[outer[i]].relationships, ks, outer[i]))]
  {
    DistinctStep(outer, i);
    var A := Linked(E, outer[..i + 1], ks);
    var B := Linked(E, outer[..i], ks)[outer[i] := E[outer[i]].(relationships := Reinforce(E[outer[i]].relationships, ks, outer[i]))];
    assert A.Keys == B.Keys;
    forall k | k in A ensures A[k] == B[k] {
    }
  }

  /** True if some keyword of ks has no entity yet: the input earns the novelty bonus. */
  predicate IntroducesEntity(E: map<Key, Entity>, ks: seq<Key>)
  {
    exists k :: k in ks && k !in E
  }

  lemma IntroducesEntityStep(E: map<Key, Entity>, ks: seq<Key>, n: nat)
    requires n < |ks|
    ensures IntroducesEntity(E, ks[..n + 1]) <==> IntroducesEntity(E, ks[..n]) || ks[n] !in E
  {
    assert ks[..n + 1] == ks[..n] + [ks[n]];
  }

  /** Strength of the link from a to b in the index (0 when there is none). */
  function Strength(E: map<Key, Entity>, a: Key, b: Key): real
  {
    if a in E then StrengthOf(E[a].relationships, b) else 0.0
  }

  /** Every link is as strong one way as the other. */
  ghost predicate Symmetric(E: map<Key, Entity>)
  {
    forall a, b :: Strength(E, a, b) == Strength(E, b, a)
  }

  /** The inner loop strengthens the link to every other keyword of the input by exactly one increment, and no other link. */
  lemma {:induction false} ReinforceStrength(rel: seq<Link>, ks: seq<Key>, self: Key, j: Key)
    requires Distinct(ks)
    ensures StrengthOf(Reinforce(rel, ks, self), j)
            == StrengthOf(rel, j) + (if j in ks && j != self then RELATIONSHIP_STRENGTH_INCREMENT else 0.0)
  {
    if ks != [] {
      var p := ks[..|ks| - 1];
      assert Distinct(p);
      ReinforceStrength(rel, p, self, j);
      assert j in ks <==> j in p || j == ks[|ks| - 1];
      assert ks[|ks| - 1] !in p;
    }
  }

  /** Links already present keep their place; new ones are appended after them. */
  lemma {:induction false} ReinforceKeepsOrder(rel: seq<Link>, ks: seq<Key>, self: Key)
    ensures Related(rel) <= Related(Reinforce(rel, ks, self))
  {
    if ks != [] {
      ReinforceKeepsOrder(rel, ks[..|ks| - 1], self);
    }
  }

  /**
   * What the update does to each keyword of the input: the entity exists, its
   * access count and score go up by one and by the reward (a new entity starts
   * from 0 and from the initial score), and the interaction is listed in
   * `mentioned_in` (exactly once when it was not listed before).
   */
  lemma IndexedKeyword(E: map<Key, Entity>, ks: seq<Key>, id: Id, k: Key)
    requires k in ks
    ensures k in Indexed(E, ks, id)
    ensures var e := Indexed(E, ks, id)[k];
      && e.accessCount == (if k in E then E[k].accessCount else 0) + 1
      && e.relevanceScore == (if k in E then E[k].relevanceScore else INITIAL_SCORE) + REWARD_SCORE
      && id in e.mentionedIn
      && (k !in E || id !in E[k].mentionedIn ==> Count(e.mentionedIn, id) == 1)
      && (k in E ==> e.name == E[k].name && e.kind == E[k].kind && E[k].mentionedIn <= e.mentionedIn)
      && (k !in E ==> e.name == k && e.kind == "Concept" && e.mentionedIn == [id])
  {
    IndexedAt(E, ks, id, k);
    TouchFields(E, k, id);
  }

  /**
   * Every link from a keyword of the input to another keyword of the input is
   * stronger by exactly one increment, and all its other links are as they were.
   */
  lemma IndexedLinks(E: map<Key, Entity>, ks: seq<Key>, id: Id, k: Key, j: Key)
    requires Distinct(ks) && k in ks
    ensures k in Indexed(E, ks, id)
    ensures StrengthOf(Indexed(E, ks, id)[k].relationships, j)
            == Strength(E, k, j) + (if j in ks && j != k then RELATIONSHIP_STRENGTH_INCREMENT else 0.0)
  {
    var t := Touch(E, k, id);
    IndexedAt(E, ks, id, k);
    assert t.relationships == if k in E then E[k].relationships else [];
    if |ks| > 1 {
      ReinforceStrength(t.relationships, ks, k, j);
    } else {
      assert ks == [k];
    }
  }

  /** The first loop's effect on one keyword's entity. */
  lemma TouchFields(E: map<Key, Entity>, k: Key, id: Id)
    ensures var t := Touch(E, k, id);
      && t.accessCount == (if k in E then E[k].accessCount else 0) + 1
      && t.relevanceScore == (if k in E then E[k].relevanceScore else INITIAL_SCORE) + REWARD_SCORE
      && id in t.mentionedIn
      && (k !in E || id !in E[k].mentionedIn ==> Count(t.mentionedIn, id) == 1)
      && (k in E ==> t.name == E[k].name && t.kind == E[k].kind && t.relationships == E[k].relationships
                     && E[k].mentionedIn <= t.mentionedIn)
      && (k !in E ==> t.name == k && t.kind == "Concept" && t.mentionedIn == [id] && t.relationships == [])
  {
    var t := Touch(E, k, id);
    if k in E {
      var m := E[k].mentionedIn;
      if id !in m {
        assert t.mentionedIn == m + [id];
        CountAppend(m, [id], id);
        assert Count([id], id) == 1;
      } else {
        assert t.mentionedIn == m;
      }
    } else {
      assert t.mentionedIn == [id];
      assert Count([id], id) == 1;
    }
  }

  /** The entity of a keyword of the input is the touched one, with its links reinforced when the input has several keywords. */
  lemma IndexedAt(E: map<Key, Entity>, ks: seq<Key>, id: Id, k: Key)
    requires k in ks
    ensures k in Indexed(E, ks, id)
    ensures |ks| > 1 ==>
      Indexed(E, ks, id)[k] == Touch(E, k, id).(relationships := Reinforce(Touch(E, k, id).relationships, ks, k))
    ensures |ks| <= 1 ==> Indexed(E, ks, id)[k] == Touch(E, k, id)
  {
    assert Touched(E, ks, id)[k] == Touch(E, k, id);
  }

  /** Entities of keywords outside the input are left exactly as they were, and none is created. */
  lemma IndexedOther(E: map<Key, Entity>, ks: seq<Key>, id: Id, k: Key)
    requires k !in ks
    ensures k in Indexed(E, ks, id) <==> k in E
    ensures k in E ==> Indexed(E, ks, id)[k] == E[k]
  {
  }

  /** The pairwise rule: the link from a to b grows by one increment exactly when a and b are distinct keywords of the input. */
  lemma IndexedStrength(E: map<Key, Entity>, ks: seq<Key>, id: Id, a: Key, b: Key)
    requires Distinct(ks)
    ensures Strength(Indexed(E, ks, id), a, b)
            == Strength(E, a, b) + (if a in ks && b in ks && a != b then RELATIONSHIP_STRENGTH_INCREMENT else 0.0)
  {
    if a in ks {
      IndexedLinks(E, ks, id, a, b);
    }
  }

  /** Reinforcement keeps link strengths symmetric. */
  lemma IndexedSymmetric(E: map<Key, Entity>, ks: seq<Key>, id: Id)
    requires Distinct(ks) && Symmetric(E)
    ensures Symmetric(Indexed(E, ks, id))
  {
    forall a, b
      ensures Strength(Indexed(E, ks, id), a, b) == Strength(Indexed(E, ks, id), b, a)
    {
      IndexedStrength(E, ks, id, a, b);
      IndexedStrength(E, ks, id, b, a);
    }
  }
}
