/**
 * The result screen of the quiz (App.js, the `showResult` branch): which of
 * three messages is shown and which background colour is used, as functions
 * of the final score and the number of questions attempted.
 */
module Results {

  /** The three messages: all correct, at least half correct, fewer than half. */
  datatype Message = Celebratory | Encouraging | Motivational

  /** The two backgrounds: green for a perfect score, amber otherwise. */
  datatype Background = Green | Amber

  /**
   * The nested ternary of the result screen.  The source compares
   * `score >= total / 2` with floating-point division; for integers that is
   * `2 * score >= total`, which the contract states against the real quotient.
   */
  function ResultMessage(score: int, total: int): (m: Message)
    ensures m == Celebratory <==> score == total
    ensures m == Encouraging <==> score != total && score as real >= total as real / 2.0
    ensures m == Motivational <==> score != total && score as real < total as real / 2.0
  {
    if score == total then Celebratory
    else if 2 * score >= total then Encouraging
    else Motivational
  }

  /** The background is green exactly when the message is the celebratory one. */
  function ResultBackground(score: int, total: int): (b: Background)
    ensures b == Green <==> ResultMessage(score, total) == Celebratory
  {
    if score == total then Green else Amber
  }

  /** How good a message is: Motivational < Encouraging < Celebratory. */
  function Rank(m: Message): nat
  {
    match m
    case Motivational => 0
    case Encouraging => 1
    case Celebratory => 2
  }

  /** Within one quiz (scores never above the total), a higher score never earns a worse message. */
  lemma ResultMessageMonotone(s1: int, s2: int, total: int)
    requires s1 <= s2 <= total
    ensures Rank(ResultMessage(s1, total)) <= Rank(ResultMessage(s2, total))
  {
  }

  /** The worked examples of the result messages. */
  lemma ResultMessageExamples()
    ensures ResultMessage(5, 5) == Celebratory
    ensures ResultMessage(3, 5) == Encouraging
    ensures ResultMessage(1, 5) == Motivational
    ensures ResultMessage(0, 1) == Motivational
    ensures ResultMessage(2, 4) == Encouraging
    ensures ResultMessage(2, 3) == Encouraging
  {
  }
}
