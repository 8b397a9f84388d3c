/**
 * The two kinds of record the memory engine stores: an interaction (one recorded
 * turn, kept under its id) and an entity (one keyword, kept under the keyword).
 */
module Records {
  import opened Wrappers

  type Id = string
  type Key = string

  /**
   * One stored turn. `relevanceScore` and `contextUsedIds` are optional because a
   * record read back from storage may lack them; every record the engine itself
   * creates has both.
   */
  datatype Interaction = Interaction(
    timestamp: string,
    userInputRaw: string,
    keywords: seq<Key>,
    aiOutput: string,
    relevanceScore: Option<real>,
    lastAccessed: string,
    contextUsedIds: Option<seq<Id>>)

  /** The score used for ordering (`relevance_score ?? 1.0`). */
  function Rank(i: Interaction): real
  {
    match i.relevanceScore
    case Some(v) => v
    case None => 1.0
  }

  /** The score an arithmetic update starts from: PHP reads a missing value as null, i.e. 0. */
  function Base(i: Interaction): real
  {
    match i.relevanceScore
    case Some(v) => v
    case None => 0.0
  }

  /** `relevance_score += d`: the score becomes present and moves by d; nothing else changes. */
  function AddScore(i: Interaction, d: real): (j: Interaction)
    ensures Base(j) == Base(i) + d && Rank(j) == Base(i) + d && j.relevanceScore.Some?
    ensures j.(relevanceScore := i.relevanceScore) == i
  {
    i.(relevanceScore := Some(Base(i) + d))
  }

  /** Two successive adjustments are one adjustment by their sum. */
  lemma AddScoreTwice(i: Interaction, d: real, e: real)
    ensures AddScore(AddScore(i, d), e) == AddScore(i, d + e)
  {
  }

  /** The `context_used_ids ?? []` of applyFeedback. */
  function ContextOf(i: Interaction): seq<Id>
  {
    match i.contextUsedIds
    case Some(ids) => ids
    case None => []
  }

  /** One entry of an entity's `relationships` array: the related keyword and the strength of the link. */
  datatype Link = Link(key: Key, strength: real)

  /** One keyword of the entity index. `relationships` is an ordered PHP array, so it is kept as a list of links in insertion order. */
  datatype Entity = Entity(
    name: string,
    kind: string,
    accessCount: int,
    relevanceScore: real,
    mentionedIn: seq<Id>,
    relationships: seq<Link>)

  /** `array_keys` of a relationships array. */
  function Related(rel: seq<Link>): (keys: seq<Key>)
    ensures |keys| == |rel|
    ensures forall i :: 0 <= i < |rel| ==> keys[i] == rel[i].key
  {
    if rel == [] then [] else [rel[0].key] + Related(rel[1..])
  }

  /** `relationships[k] ?? 0`. */
  function StrengthOf(rel: seq<Link>, k: Key): real
  {
    if rel == [] then 0.0
    else if rel[0].key == k then rel[0].strength
    else StrengthOf(rel[1..], k)
  }

  /**
   * `relationships[k] = (relationships[k] ?? 0) + d`: an existing link keeps its
   * place in the array, a new one is appended.
   */
  function Bump(rel: seq<Link>, k: Key, d: real): (r: seq<Link>)
    ensures StrengthOf(r, k) == StrengthOf(rel, k) + d
    ensures forall j :: j != k ==> StrengthOf(r, j) == StrengthOf(rel, j)
    ensures Related(r) == if k in Related(rel) then Related(rel) else Related(rel) + [k]
  {
    if rel == [] then [Link(k, d)]
    else if rel[0].key == k then [Link(k, rel[0].strength + d)] + rel[1..]
    else
      var r := [rel[0]] + Bump(rel[1..], k, d);
      assert r[1..] == Bump(rel[1..], k, d);
      r
  }
}
