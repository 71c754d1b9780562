/**
 * `SymbolicConsistentAi`: the player keeps the solver's assertion store as a sequence of
 * formulas, adds to it one formula at a time where the constructor and `make_guess` add to
 * the solver, and reads each guess off a model of the store.
 */
module SymbolicStrategy {
  import opened Wrappers
  import opened FeedbackOracle
  import opened Consistency
  import opened Enumeration
  import opened Encoding
  import opened EncodingSemantics

  class SymbolicConsistentAi {
    /** `NUM_POSITIONS` and `NUM_SYMBOLS`. */
    const n: nat
    const k: nat
    var lastGuess: Option<seq<int>>
    /** The solver's assertion store, in the order the formulas were added. */
    var constraints: seq<Formula>
    /** Number of `make_guess` calls so far; it names that call's fresh `fm` and `sm` variables. */
    var rounds: nat
    /** The (guess, feedback) pairs the store encodes. */
    ghost var guesses: seq<seq<int>>
    ghost var feedbacks: seq<Feedback>

    ghost predicate Valid()
      reads this
    {
      && |guesses| == |feedbacks| == rounds
      && AllWellFormed(guesses, n, k)
      && constraints == Store(n, k, guesses, feedbacks)
      && (lastGuess.Some? ==> WellFormed(lastGuess.value, n, k))
    }

    /** Some code is still consistent with every recorded round: what keeps `check()` from answering `unsat`. */
    ghost predicate Solvable()
      reads this
    {
      exists s :: WellFormed(s, n, k) && ConsistentWithHistory(s, guesses, feedbacks)
    }

    /** The store starts with "exactly one symbol on each position". */
    constructor (n: nat, k: nat)
      ensures this.n == n && this.k == k
      ensures Valid() && lastGuess == None && guesses == [] && feedbacks == []
      ensures constraints == ExactlyOneSymbol(n, k)
    {
      this.n, this.k := n, k;
      lastGuess := None;
      rounds := 0;
      guesses, feedbacks := [], [];
      var store: seq<Formula> := [];
      for pos := 0 to n
        invariant store == ExactlyOneSymbol(n, k)[..pos]
      {
        var coeffs: seq<Var> := [];
        for sym := 0 to k
          invariant coeffs == SecretVars(pos, k)[..sym]
        {
          coeffs := coeffs + [SecretVar(pos, sym)];
        }
        assert coeffs == SecretVars(pos, k);
        store := store + [PbEq(coeffs, 1)];
        assert ExactlyOneSymbol(n, k)[..pos + 1] == ExactlyOneSymbol(n, k)[..pos] + [PbEq(SecretVars(pos, k), 1)];
      }
      constraints := store;
      assert store == ExactlyOneSymbol(n, k) + [];
    }

    /**
     * `initial_guess`: asks the solver for a model and reads the guess off it, appending
     * every symbol whose variable is true. The guess is a well-formed code consistent with
     * the whole history, so it repeats none of the earlier losing guesses.
     */
    method InitialGuess() returns (guess: seq<int>)
      requires Valid() && Solvable()
      modifies this`lastGuess
      ensures Valid() && lastGuess == Some(guess)
      ensures WellFormed(guess, n, k) && ConsistentWithHistory(guess, guesses, feedbacks)
      ensures forall r | 0 <= r < |guesses| && feedbacks[r].fullMatches != n :: guess != guesses[r]
    {
      SatisfiableIffConsistentCode(n, k, guesses, feedbacks);
      var m :| Satisfies(m, constraints);
      guess := ReadGuess(m);
      StoreSound(m, n, k, guesses, feedbacks);
      assert |guess| == n;
      lastGuess := Some(guess);
      forall r | 0 <= r < |guesses| && feedbacks[r].fullMatches != n ensures guess != guesses[r] {
        ConsistentAvoidsLosingGuesses(guess, guesses, feedbacks, r);
      }
    }

    /** The loop of `initial_guess` that reads the guess off a model: position by position, every symbol whose variable is true. */
    method ReadGuess(m: Var -> bool) returns (guess: seq<int>)
      ensures guess == Decode(m, n, k)
    {
      guess := [];
      for pos := 0 to n
        invariant guess == Decode(m, pos, k)
      {
        for sym := 0 to k
          invariant guess == Decode(m, pos, k) + TrueSymbols(m, pos, sym)
        {
          if m(SecretVar(pos, sym)) {
            guess := guess + [sym];
          }
        }
      }
    }

    /**
     * `make_guess`: appends the constraints of the last guess and its feedback (the formulas
     * of `AddRoundConstraints`, links first) and asks for the next guess.
     */
    method MakeGuess(feedback: Feedback) returns (guess: seq<int>)
      requires Valid() && lastGuess.Some?
      requires exists s :: WellFormed(s, n, k) && ConsistentWithHistory(s, guesses + [lastGuess.value], feedbacks + [feedback])
      modifies this
      ensures guesses == old(guesses) + [old(lastGuess).value] && feedbacks == old(feedbacks) + [feedback]
      ensures constraints == old(constraints) + RoundConstraints(n, old(rounds), old(lastGuess).value, feedback)
      ensures Valid() && lastGuess == Some(guess)
      ensures WellFormed(guess, n, k) && ConsistentWithHistory(guess, guesses, feedbacks)
      ensures feedback.fullMatches != n ==> guess != old(lastGuess).value
    {
      var round := rounds;
      var last := lastGuess.value;
      AddRoundConstraints(round, last, feedback);
      StoreAppend(n, k, guesses, feedbacks, last, feedback);
      guesses, feedbacks := guesses + [last], feedbacks + [feedback];
      rounds := rounds + 1;
      assert Valid();
      guess := InitialGuess();
      if feedback.fullMatches != n {
        assert guesses[|guesses| - 1] == last;
      }
    }

    /** Everything `make_guess` adds to the solver before asking for the next guess, in the order it adds it. */
    method AddRoundConstraints(round: int, last: seq<int>, feedback: Feedback)
      requires |last| == n
      modifies this`constraints
      ensures constraints == old(constraints) + RoundConstraints(n, round, last, feedback)
    {
      ghost var links, rows := FullMatchLinks(n, round, last), MatchRows(n, round, last);
      ghost var fullCount := [PbEq(FullMatchVars(n, round), feedback.fullMatches)];
      ghost var symbolCount := [PbEq(SymbolMatchVars(n, round, n), feedback.symbolMatches)];
      AddFullMatchLinks(round, last);
      // The number of true `fm` variables is the reported full-match count
      constraints := constraints + [PbEq(FullMatchVars(n, round), feedback.fullMatches)];
      assert constraints == old(constraints) + (links + fullCount);
      AddMatchRows(round, last);
      assert constraints == old(constraints) + (links + fullCount + rows);
      // The number of true off-diagonal `sm` variables is the reported symbol-match count
      constraints := constraints + [PbEq(SymbolMatchVars(n, round, n), feedback.symbolMatches)];
      assert constraints == old(constraints) + (links + fullCount + rows + symbolCount);
    }

    /** The "possible full matches" loop: one link between `s_pos_{last[pos]}` and `fm_pos` per position. */
    method AddFullMatchLinks(round: int, last: seq<int>)
      requires |last| == n
      modifies this`constraints
      ensures constraints == old(constraints) + FullMatchLinks(n, round, last)
    {
      ghost var links := FullMatchLinks(n, round, last);
      for pos := 0 to n
        invariant constraints == old(constraints) + links[..pos]
      {
        constraints := constraints + [Iff(Atom(SecretVar(pos, last[pos])), Atom(FullMatchVar(round, pos)))];
        assert links[..pos + 1] == links[..pos] + [links[pos]];
      }
      assert links[..n] == links;
    }

    /** The "possible symbol matches" loop: one `And(match_exprs)` per guess position. */
    method AddMatchRows(round: int, last: seq<int>)
      requires |last| == n
      modifies this`constraints
      ensures constraints == old(constraints) + MatchRows(n, round, last)
    {
      ghost var rows := MatchRows(n, round, last);
      for guessPos := 0 to n
        invariant constraints == old(constraints) + rows[..guessPos]
      {
        var matchExprs := MatchExprsOf(round, last, guessPos);
        constraints := constraints + [And(matchExprs)];
        assert rows[..guessPos + 1] == rows[..guessPos] + [rows[guessPos]];
      }
      assert rows[..n] == rows;
    }

    /** The inner loop of "possible symbol matches": the biconditionals of guess position `guessPos`, skipping `secretPos == guessPos`. */
    method MatchExprsOf(round: int, last: seq<int>, guessPos: nat) returns (matchExprs: seq<Formula>)
      requires |last| == n && guessPos < n
      ensures matchExprs == MatchExprs(round, last, guessPos, n)
    {
      matchExprs := [];
      for secretPos := 0 to n
        invariant matchExprs == MatchExprs(round, last, guessPos, secretPos)
      {
        if guessPos == secretPos {
          continue;
        }
        var lhs := [Not(Atom(FullMatchVar(round, guessPos))), Atom(SecretVar(secretPos, last[guessPos])), Not(Atom(FullMatchVar(round, secretPos)))];
        // `secretPos` is not taken by any guess position before `guessPos`
        lhs := lhs + NotClaimedAbove(round, guessPos, secretPos);
        // `guessPos` is matched with no secret position before `secretPos`
        lhs := lhs + NotMatchedLeft(round, guessPos, secretPos);
        matchExprs := matchExprs + [Iff(And(lhs), Atom(SymbolMatchVar(round, guessPos, secretPos)))];
      }
    }
  }
}
