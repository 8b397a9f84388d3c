/**
 * The tuning constants of the memory engine (project_nemi/config.php).
 * Scores are exact reals here; the program computes them in IEEE doubles.
 */
module Config {
  /** Added to a memory each time it is recalled as context. */
  const REWARD_SCORE: real := 0.5
  /** Subtracted from every memory on each recorded turn. */
  const DECAY_SCORE: real := 0.05
  /** Score of a freshly recorded memory, and of a freshly created entity before its first reward. */
  const INITIAL_SCORE: real := 1.0
  /** Largest number of memories kept after pruning. */
  const PRUNING_THRESHOLD: nat := 500
  /** Largest number of words of recalled context. */
  const CONTEXT_TOKEN_BUDGET: nat := 4000
  /** Extra score for a memory that introduced a keyword never seen before. */
  const NOVELTY_BONUS: real := 0.3
  /** Added to the link between two keywords each time they occur in one input. */
  const RELATIONSHIP_STRENGTH_INCREMENT: real := 0.1
  /** Factor applied to the decay of memories on the current topic. */
  const RECENT_TOPIC_DECAY_MODIFIER: real := 0.1
  /** Adjustment for an answer marked good. */
  const USER_FEEDBACK_REWARD: real := 0.5
  /** Adjustment for an answer marked bad. */
  const USER_FEEDBACK_PENALTY: real := -0.5
}
