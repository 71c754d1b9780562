/**
 * The feedback oracle `eval_guess`: how many positions agree (full matches)
 * and how many further guess symbols occur somewhere else in the secret
 * (symbol matches), each secret symbol used at most once.
 */
module FeedbackOracle {
  import opened Wrappers
  import opened ListOps

  /** The `Feedback` record: numbers of full matches and of symbol-only matches. */
  datatype Feedback = Feedback(fullMatches: int, symbolMatches: int)

  function Min(a: int, b: int): int { if a < b then a else b }

  /**
   * The symbols of `x` at the positions `p >= from` where `x[p] != y[p]` and `p` is not
   * `excluded`, in position order. Positions stop at the shorter sequence, as `zip` does.
   */
  function Unmatched(x: seq<int>, y: seq<int>, excluded: set<int>, from: nat): (r: seq<int>)
    requires from <= Min(|x|, |y|)
    ensures |r| <= Min(|x|, |y|) - from
    decreases |x| - from
  {
    if from == Min(|x|, |y|) then []
    else (if x[from] != y[from] && from !in excluded then [x[from]] else []) + Unmatched(x, y, excluded, from + 1)
  }

  /** `guess_rest`: the guess symbols at positions that are not full matches. */
  function GuessRest(secret: seq<int>, guess: seq<int>): seq<int>
  {
    Unmatched(guess, secret, {}, 0)
  }

  /** `secret_rest`: the secret symbols at positions that are not full matches. */
  function SecretRest(secret: seq<int>, guess: seq<int>): seq<int>
  {
    Unmatched(secret, guess, {}, 0)
  }

  /**
   * Reference meaning of `eval_guess`: the full-match count is computed as the source does
   * (length of the guess minus the unmatched guess symbols), and the symbol-match count is
   * the greedy overlap of the two unmatched remainders, which `SymbolMatchesAreCommonSymbols`
   * shows is the size of their multiset intersection.
   */
  function Evaluate(secret: seq<int>, guess: seq<int>): Feedback
  {
    Feedback(|guess| - |GuessRest(secret, guess)|, Overlap(GuessRest(secret, guess), SecretRest(secret, guess)))
  }

  /**
   * `eval_guess`: builds the two remainders, then scans the guess remainder left to right,
   * removing each symbol's first occurrence from the secret remainder when there is one.
   */
  method EvalGuess(secret: seq<int>, guess: seq<int>) returns (fb: Feedback)
    ensures fb == Evaluate(secret, guess)
  {
    var guessRest := GuessRest(secret, guess);
    var secretRest := SecretRest(secret, guess);
    var fullMatchCount := |guess| - |guessRest|;
    var symbolMatchCount := 0;
    for t := 0 to |guessRest|
      invariant symbolMatchCount + Overlap(guessRest[t..], secretRest) == Overlap(guessRest, SecretRest(secret, guess))
    {
      var symbol := guessRest[t];
      ConsumeStep(guessRest, t, secretRest);
      var removed := ListRemove(secretRest, symbol);
      if removed.Some? {
        secretRest := removed.value;
        symbolMatchCount := symbolMatchCount + 1;
      }
    }
    assert guessRest[|guessRest|..] == [];
    fb := Feedback(fullMatchCount, symbolMatchCount);
  }

  /** One step of the scan in `EvalGuess`, stated on the overlap still to be found. */
  lemma ConsumeStep(rest: seq<int>, t: nat, secretRest: seq<int>)
    requires t < |rest|
    ensures ListRemove(secretRest, rest[t]).Some? ==>
      Overlap(rest[t..], secretRest) == 1 + Overlap(rest[t + 1..], ListRemove(secretRest, rest[t]).value)
    ensures ListRemove(secretRest, rest[t]).None? ==> Overlap(rest[t..], secretRest) == Overlap(rest[t + 1..], secretRest)
  {
    assert rest[t..][0] == rest[t] && rest[t..][1..] == rest[t + 1..];
  }

  lemma {:induction false} UnmatchedAgreements(x: seq<int>, y: seq<int>, from: nat)
    requires |x| == |y| && from <= |x|
    ensures |Unmatched(x, y, {}, from)| + |set p | from <= p < |x| && x[p] == y[p]| == |x| - from
    decreases |x| - from
  {
    var agree := set p | from <= p < |x| && x[p] == y[p];
    if from < |x| {
      UnmatchedAgreements(x, y, from + 1);
      var rest := set p | from + 1 <= p < |x| && x[p] == y[p];
      if x[from] == y[from] {
        assert agree == {from} + rest;
      } else {
        assert agree == rest;
      }
    } else {
      assert forall p :: p !in agree;
    }
  }

  /** For equal lengths the full-match count is the number of positions where guess and secret agree. */
  lemma FullMatchesAreAgreements(secret: seq<int>, guess: seq<int>)
    requires |secret| == |guess|
    ensures Evaluate(secret, guess).fullMatches == |set p | 0 <= p < |guess| && guess[p] == secret[p]|
  {
    UnmatchedAgreements(guess, secret, 0);
  }

  /** Feedback bounds: both counts are non-negative and together at most the code length. */
  lemma FeedbackBounds(secret: seq<int>, guess: seq<int>)
    requires |secret| == |guess|
    ensures 0 <= Evaluate(secret, guess).fullMatches && 0 <= Evaluate(secret, guess).symbolMatches
    ensures Evaluate(secret, guess).fullMatches + Evaluate(secret, guess).symbolMatches <= |guess|
  {
    OverlapBounded(GuessRest(secret, guess), SecretRest(secret, guess));
  }

  /**
   * The symbol-match count is the number of symbols the two unmatched remainders share,
   * counted with multiplicity.
   */
  lemma SymbolMatchesAreCommonSymbols(secret: seq<int>, guess: seq<int>)
    ensures Evaluate(secret, guess).symbolMatches ==
      |multiset(GuessRest(secret, guess)) * multiset(SecretRest(secret, guess))|
  {
    OverlapIsCommonCount(GuessRest(secret, guess), SecretRest(secret, guess));
  }

  /** `zip` never looks past the end of `y`, so the tail of a longer `x` leaves no unmatched symbol. */
  lemma {:induction false} UnmatchedPrefix(x: seq<int>, y: seq<int>, from: nat)
    requires |x| >= |y| && from <= |y|
    ensures Unmatched(x, y, {}, from) == Unmatched(x[..|y|], y, {}, from)
    decreases |y| - from
  {
    if from < |y| {
      UnmatchedPrefix(x, y, from + 1);
    }
  }

  /**
   * With `zip` truncation, guess positions beyond the end of the secret count as full matches,
   * on top of the zipped positions where guess and secret agree.
   */
  lemma LongerGuessCountsTailAsFull(secret: seq<int>, guess: seq<int>)
    requires |guess| >= |secret|
    ensures Evaluate(secret, guess).fullMatches ==
      (|guess| - |secret|) + |set p | 0 <= p < |secret| && guess[p] == secret[p]|
  {
    var head := guess[..|secret|];
    UnmatchedPrefix(guess, secret, 0);
    UnmatchedAgreements(head, secret, 0);
    assert (set p | 0 <= p < |head| && head[p] == secret[p]) == (set p | 0 <= p < |secret| && guess[p] == secret[p]);
  }

  lemma {:induction false} UnmatchedEmptyIffAgree(x: seq<int>, y: seq<int>, from: nat)
    requires |x| == |y| && from <= |x|
    ensures Unmatched(x, y, {}, from) == [] <==> forall p :: from <= p < |x| ==> x[p] == y[p]
    decreases |x| - from
  {
    if from < |x| {
      UnmatchedEmptyIffAgree(x, y, from + 1);
    }
  }

  /** A guess scored against itself gives `Feedback(N, 0)`. */
  lemma {:induction false} EvaluateSelf(s: seq<int>)
    ensures Evaluate(s, s) == Feedback(|s|, 0)
  {
    UnmatchedEmptyIffAgree(s, s, 0);
  }

  /** The win test: the full-match count equals the length exactly when the guess is the secret. */
  lemma WinIffEqual(secret: seq<int>, guess: seq<int>)
    requires |secret| == |guess|
    ensures Evaluate(secret, guess).fullMatches == |guess| <==> guess == secret
  {
    UnmatchedEmptyIffAgree(guess, secret, 0);
  }

  lemma ExampleRemoveZero()
    ensures ListRemove([1, 2, 0], 0) == Some([1, 2])
  {
    var xs := [1, 2, 0];
    assert xs[1..] == [2, 0] && [2, 0][1..] == [0];
    assert FirstIndex(xs, 0) == 2;
    assert xs[..2] + xs[3..] == [1, 2];
  }

  lemma ExampleRemoveOne()
    ensures ListRemove([1, 2], 1) == Some([2])
  {
    var xs := [1, 2];
    assert FirstIndex(xs, 1) == 0;
    assert xs[..0] + xs[1..] == [2];
  }

  lemma ExampleRests()
    ensures GuessRest([0, 1, 2, 0], [0, 0, 1, 1]) == [0, 1, 1]
    ensures SecretRest([0, 1, 2, 0], [0, 0, 1, 1]) == [1, 2, 0]
  {
  }

  /** 0 takes the 0, the first 1 takes the 1, the second 1 finds nothing left. */
  lemma ExampleOverlap()
    ensures Overlap([0, 1, 1], [1, 2, 0]) == 2
  {
    ExampleRemoveZero();
    ExampleRemoveOne();
    assert [0, 1, 1][1..] == [1, 1] && [1, 1][1..] == [1] && [1][1..] == [];
    assert Overlap([1], [2]) == 0;
    assert Overlap([1, 1], [1, 2]) == 1;
  }

  /** The worked example: secret (0,1,2,0) against guess (0,0,1,1) scores one full and two symbol matches. */
  lemma WorkedExample()
    ensures Evaluate([0, 1, 2, 0], [0, 0, 1, 1]) == Feedback(1, 2)
  {
    ExampleRests();
    ExampleOverlap();
  }
}
