/** The consistency checks built on the feedback oracle. */
module Consistency {
  import opened FeedbackOracle

  /** `is_consistent`: the candidate secret would have produced the observed feedback for this guess. */
  predicate IsConsistent(secret: seq<int>, guess: seq<int>, feedback: Feedback)
  {
    feedback == Evaluate(secret, guess)
  }

  /**
   * `is_consistent_with_history`: every (guess, feedback) pair of the two zipped lists is
   * consistent with the candidate; `zip` stops at the shorter list.
   */
  predicate ConsistentWithHistory(secret: seq<int>, guesses: seq<seq<int>>, feedbacks: seq<Feedback>)
  {
    forall r | 0 <= r < Min(|guesses|, |feedbacks|) :: IsConsistent(secret, guesses[r], feedbacks[r])
  }

  /** The early-exit loop of `is_consistent_with_history`. */
  method IsConsistentWithHistory(secret: seq<int>, guesses: seq<seq<int>>, feedbacks: seq<Feedback>) returns (ok: bool)
    ensures ok == ConsistentWithHistory(secret, guesses, feedbacks)
  {
    for r := 0 to Min(|guesses|, |feedbacks|)
      invariant forall r' | 0 <= r' < r :: IsConsistent(secret, guesses[r'], feedbacks[r'])
    {
      var observed := EvalGuess(secret, guesses[r]);
      if feedbacks[r] != observed {
        assert !IsConsistent(secret, guesses[r], feedbacks[r]);
        return false;
      }
    }
    return true;
  }

  /** An empty history (either list empty) rules nothing out. */
  lemma EmptyHistoryConsistent(secret: seq<int>, guesses: seq<seq<int>>, feedbacks: seq<Feedback>)
    requires guesses == [] || feedbacks == []
    ensures ConsistentWithHistory(secret, guesses, feedbacks)
  {
  }

  /** Recording one more round adds exactly one more consistency condition. */
  lemma HistoryAppend(secret: seq<int>, guesses: seq<seq<int>>, feedbacks: seq<Feedback>, guess: seq<int>, feedback: Feedback)
    requires |guesses| == |feedbacks|
    ensures ConsistentWithHistory(secret, guesses + [guess], feedbacks + [feedback])
        <==> ConsistentWithHistory(secret, guesses, feedbacks) && IsConsistent(secret, guess, feedback)
  {
    var n := |guesses|;
    if ConsistentWithHistory(secret, guesses + [guess], feedbacks + [feedback]) {
      assert IsConsistent(secret, (guesses + [guess])[n], (feedbacks + [feedback])[n]);
      forall r | 0 <= r < n ensures IsConsistent(secret, guesses[r], feedbacks[r]) {
        assert IsConsistent(secret, (guesses + [guess])[r], (feedbacks + [feedback])[r]);
      }
    }
  }

  /** Extending either list never makes an inconsistent candidate consistent again. */
  lemma HistoryExtend(secret: seq<int>, guesses: seq<seq<int>>, feedbacks: seq<Feedback>, moreGuesses: seq<seq<int>>, moreFeedbacks: seq<Feedback>)
    requires ConsistentWithHistory(secret, guesses + moreGuesses, feedbacks + moreFeedbacks)
    ensures ConsistentWithHistory(secret, guesses, feedbacks)
  {
    forall r | 0 <= r < Min(|guesses|, |feedbacks|) ensures IsConsistent(secret, guesses[r], feedbacks[r]) {
      assert (guesses + moreGuesses)[r] == guesses[r] && (feedbacks + moreFeedbacks)[r] == feedbacks[r];
    }
  }

  /** The true secret is consistent with every history the oracle itself produced. */
  lemma GenuineHistoryConsistent(secret: seq<int>, guesses: seq<seq<int>>, feedbacks: seq<Feedback>)
    requires |guesses| == |feedbacks|
    requires forall r | 0 <= r < |guesses| :: feedbacks[r] == Evaluate(secret, guesses[r])
    ensures ConsistentWithHistory(secret, guesses, feedbacks)
  {
  }

  /** A candidate consistent with a history differs from every guess in it whose feedback was not a win. */
  lemma ConsistentAvoidsLosingGuesses(candidate: seq<int>, guesses: seq<seq<int>>, feedbacks: seq<Feedback>, r: nat)
    requires ConsistentWithHistory(candidate, guesses, feedbacks)
    requires r < |guesses| && r < |feedbacks|
    requires feedbacks[r].fullMatches != |guesses[r]|
    ensures candidate != guesses[r]
  {
    if candidate == guesses[r] {
      EvaluateSelf(candidate);
    }
  }
}
