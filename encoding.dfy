/**
 * The propositional vocabulary of `SymbolicConsistentAi` and the constraints it hands to
 * the solver. A solver store is a sequence of formulas; an assignment gives every Boolean
 * variable a value, and `Satisfies` is what `check()` answering `sat` with that model means.
 */
module Encoding {
  import opened FeedbackOracle

  /**
   * The Boolean variables: `s_pos_sym` (the secret has `sym` at `pos`), and, per
   * `make_guess` call `round`, the fresh `fm_pos` (full match at `pos`) and
   * `sm_guessPos_secretPos` (guess position matched against another secret position).
   */
  datatype Var =
    | SecretVar(pos: int, sym: int)
    | FullMatchVar(round: int, pos: int)
    | SymbolMatchVar(round: int, guessPos: int, secretPos: int)

  /** The formula shapes the player builds; `PbEq` is a pseudo-Boolean equality with unit coefficients. */
  datatype Formula =
    | Atom(v: Var)
    | Not(f: Formula)
    | And(fs: seq<Formula>)
    | Iff(lhs: Formula, rhs: Formula)
    | PbEq(vs: seq<Var>, count: int)

  /** Number of variables of `vs` (with repetitions) that `a` makes true. */
  function CountTrue(a: Var -> bool, vs: seq<Var>): (c: nat)
    ensures c <= |vs|
  {
    if vs == [] then 0
    else CountTrue(a, vs[..|vs| - 1]) + (if a(vs[|vs| - 1]) then 1 else 0)
  }

  lemma {:induction false} CountTrueConcat(a: Var -> bool, xs: seq<Var>, ys: seq<Var>)
    ensures CountTrue(a, xs + ys) == CountTrue(a, xs) + CountTrue(a, ys)
    decreases |ys|
  {
    if ys != [] {
      var m := |ys| - 1;
      CountTrueConcat(a, xs, ys[..m]);
      assert (xs + ys)[..|xs + ys| - 1] == xs + ys[..m];
      assert (xs + ys)[|xs + ys| - 1] == ys[m];
    } else {
      assert xs + ys == xs;
    }
  }

  function Holds(a: Var -> bool, f: Formula): bool
  {
    match f
    case Atom(v) => a(v)
    case Not(g) => !Holds(a, g)
    case And(fs) => forall t | 0 <= t < |fs| :: Holds(a, fs[t])
    case Iff(l, r) => Holds(a, l) == Holds(a, r)
    case PbEq(vs, c) => CountTrue(a, vs) == c
  }

  /** `a` is a model of the whole store. */
  predicate Satisfies(a: Var -> bool, store: seq<Formula>)
  {
    forall t | 0 <= t < |store| :: Holds(a, store[t])
  }

  /** The store has a model: what `check()` answering `sat` means. */
  ghost predicate Satisfiable(store: seq<Formula>)
  {
    exists a: Var -> bool :: Satisfies(a, store)
  }

  lemma SatisfiesConcat(a: Var -> bool, xs: seq<Formula>, ys: seq<Formula>)
    ensures Satisfies(a, xs + ys) <==> Satisfies(a, xs) && Satisfies(a, ys)
  {
    if Satisfies(a, xs) && Satisfies(a, ys) {
      forall t | 0 <= t < |xs + ys| ensures Holds(a, (xs + ys)[t]) {
        if t >= |xs| {
          assert (xs + ys)[t] == ys[t - |xs|];
        }
      }
    }
    if Satisfies(a, xs + ys) {
      forall t | 0 <= t < |xs| ensures Holds(a, xs[t]) {
        assert (xs + ys)[t] == xs[t];
      }
      forall t | 0 <= t < |ys| ensures Holds(a, ys[t]) {
        assert (xs + ys)[|xs| + t] == ys[t];
      }
    }
  }

  /** `secret_vars[pos]`: the variables `s_pos_0 .. s_pos_{k-1}`. */
  function SecretVars(pos: int, k: nat): (vs: seq<Var>)
    ensures |vs| == k && forall q | 0 <= q < k :: vs[q] == SecretVar(pos, q)
  {
    seq(k, q => SecretVar(pos, q))
  }

  /** The constructor's constraints: exactly one symbol on each position. */
  function ExactlyOneSymbol(n: nat, k: nat): (fs: seq<Formula>)
    ensures |fs| == n && forall p | 0 <= p < n :: fs[p] == PbEq(SecretVars(p, k), 1)
  {
    seq(n, p => PbEq(SecretVars(p, k), 1))
  }

  /** Possible full matches: `s_pos_{guess[pos]}` is equivalent to `fm_pos`. */
  function FullMatchLinks(n: nat, round: int, guess: seq<int>): (fs: seq<Formula>)
    requires |guess| == n
    ensures |fs| == n
    ensures forall p | 0 <= p < n :: fs[p] == Iff(Atom(SecretVar(p, guess[p])), Atom(FullMatchVar(round, p)))
  {
    seq(n, p requires 0 <= p < n => Iff(Atom(SecretVar(p, guess[p])), Atom(FullMatchVar(round, p))))
  }

  /** `fm_0 .. fm_{n-1}` of one round. */
  function FullMatchVars(n: nat, round: int): (vs: seq<Var>)
    ensures |vs| == n && forall p | 0 <= p < n :: vs[p] == FullMatchVar(round, p)
  {
    seq(n, p => FullMatchVar(round, p))
  }

  /** `Not(sm[prev][secretPos])` for every `prev < upTo` other than `secretPos`. */
  function NotClaimedAbove(round: int, upTo: nat, secretPos: int): seq<Formula>
  {
    if upTo == 0 then []
    else
      var prev := upTo - 1;
      NotClaimedAbove(round, prev, secretPos)
        + (if prev == secretPos then [] else [Not(Atom(SymbolMatchVar(round, prev, secretPos)))])
  }

  /** `Not(sm[guessPos][prev])` for every `prev < upTo` other than `guessPos`. */
  function NotMatchedLeft(round: int, guessPos: int, upTo: nat): seq<Formula>
  {
    if upTo == 0 then []
    else
      var prev := upTo - 1;
      NotMatchedLeft(round, guessPos, prev)
        + (if prev == guessPos then [] else [Not(Atom(SymbolMatchVar(round, guessPos, prev)))])
  }

  /**
   * One entry of `match_exprs`: guess position `i` is symbol-matched with secret position `j`
   * exactly when neither is a full match, the secret has the guess symbol at `j`, no earlier
   * guess position took `j`, and `i` took no earlier secret position.
   */
  function MatchExpr(round: int, guess: seq<int>, i: nat, j: nat): Formula
    requires i < |guess|
  {
    Iff(
      And([Not(Atom(FullMatchVar(round, i))), Atom(SecretVar(j, guess[i])), Not(Atom(FullMatchVar(round, j)))]
        + NotClaimedAbove(round, i, j) + NotMatchedLeft(round, i, j)),
      Atom(SymbolMatchVar(round, i, j)))
  }

  /** `match_exprs` of guess position `i`, over secret positions `j < upTo` other than `i`. */
  function MatchExprs(round: int, guess: seq<int>, i: nat, upTo: nat): seq<Formula>
    requires i < |guess|
  {
    if upTo == 0 then []
    else
      var j := upTo - 1;
      MatchExprs(round, guess, i, j) + (if j == i then [] else [MatchExpr(round, guess, i, j)])
  }

  /** One `And(match_exprs)` per guess position. */
  function MatchRows(n: nat, round: int, guess: seq<int>): (fs: seq<Formula>)
    requires |guess| == n
    ensures |fs| == n && forall i | 0 <= i < n :: fs[i] == And(MatchExprs(round, guess, i, n))
  {
    seq(n, i requires 0 <= i < n => And(MatchExprs(round, guess, i, n)))
  }

  /** `sm[guessPos][j]` for `j < upTo`, `j != guessPos`, in order. */
  function RowVars(round: int, guessPos: int, upTo: nat): (vs: seq<Var>)
    ensures |vs| <= upTo
  {
    if upTo == 0 then []
    else
      var j := upTo - 1;
      RowVars(round, guessPos, j) + (if j == guessPos then [] else [SymbolMatchVar(round, guessPos, j)])
  }

  /** The `sm` variables of `permutations(range(n), 2)` whose guess position is below `rows`, in that order. */
  function SymbolMatchVars(n: nat, round: int, rows: nat): seq<Var>
  {
    if rows == 0 then []
    else SymbolMatchVars(n, round, rows - 1) + RowVars(round, rows - 1, n)
  }

  /** Everything one `make_guess` call adds, in the order it adds it. */
  function RoundConstraints(n: nat, round: int, guess: seq<int>, feedback: Feedback): seq<Formula>
    requires |guess| == n
  {
    FullMatchLinks(n, round, guess)
      + [PbEq(FullMatchVars(n, round), feedback.fullMatches)]
      + MatchRows(n, round, guess)
      + [PbEq(SymbolMatchVars(n, round, n), feedback.symbolMatches)]
  }

  /** The constraints of rounds `0 .. rounds - 1`. */
  function History(n: nat, guesses: seq<seq<int>>, feedbacks: seq<Feedback>, rounds: nat): seq<Formula>
    requires rounds <= |guesses| && rounds <= |feedbacks|
    requires forall r | 0 <= r < |guesses| :: |guesses[r]| == n
  {
    if rounds == 0 then []
    else History(n, guesses, feedbacks, rounds - 1) + RoundConstraints(n, rounds - 1, guesses[rounds - 1], feedbacks[rounds - 1])
  }

  /** The solver's store after the constructor and one `make_guess` call per recorded round. */
  function Store(n: nat, k: nat, guesses: seq<seq<int>>, feedbacks: seq<Feedback>): seq<Formula>
    requires |guesses| == |feedbacks|
    requires forall r | 0 <= r < |guesses| :: |guesses[r]| == n
  {
    ExactlyOneSymbol(n, k) + History(n, guesses, feedbacks, |guesses|)
  }

  /** Recording more rounds leaves the constraints of the earlier rounds as they were. */
  lemma {:induction false} HistoryKeepsPrefix(n: nat, guesses: seq<seq<int>>, feedbacks: seq<Feedback>, guess: seq<int>, feedback: Feedback, rounds: nat)
    requires rounds <= |guesses| && rounds <= |feedbacks| && |guess| == n
    requires forall r | 0 <= r < |guesses| :: |guesses[r]| == n
    ensures History(n, guesses + [guess], feedbacks + [feedback], rounds) == History(n, guesses, feedbacks, rounds)
  {
    if rounds > 0 {
      HistoryKeepsPrefix(n, guesses, feedbacks, guess, feedback, rounds - 1);
      assert (guesses + [guess])[rounds - 1] == guesses[rounds - 1];
      assert (feedbacks + [feedback])[rounds - 1] == feedbacks[rounds - 1];
    }
  }

  /** One `make_guess` call appends exactly that round's constraints to the store. */
  lemma StoreAppend(n: nat, k: nat, guesses: seq<seq<int>>, feedbacks: seq<Feedback>, guess: seq<int>, feedback: Feedback)
    requires |guesses| == |feedbacks| && |guess| == n
    requires forall r | 0 <= r < |guesses| :: |guesses[r]| == n
    ensures forall r | 0 <= r < |guesses + [guess]| :: |(guesses + [guess])[r]| == n
    ensures Store(n, k, guesses + [guess], feedbacks + [feedback])
      == Store(n, k, guesses, feedbacks) + RoundConstraints(n, |guesses|, guess, feedback)
  {
    var gs, fs := guesses + [guess], feedbacks + [feedback];
    assert gs[|guesses|] == guess && fs[|guesses|] == feedback;
    HistoryKeepsPrefix(n, guesses, feedbacks, guess, feedback, |guesses|);
    assert History(n, gs, fs, |gs|) == History(n, guesses, feedbacks, |guesses|) + RoundConstraints(n, |guesses|, guess, feedback);
  }

  /** The history holds exactly when each of its rounds does. */
  lemma {:induction false} HistoryRounds(a: Var -> bool, n: nat, guesses: seq<seq<int>>, feedbacks: seq<Feedback>, rounds: nat)
    requires rounds <= |guesses| && rounds <= |feedbacks|
    requires forall r | 0 <= r < |guesses| :: |guesses[r]| == n
    ensures Satisfies(a, History(n, guesses, feedbacks, rounds)) <==>
      forall r | 0 <= r < rounds :: Satisfies(a, RoundConstraints(n, r, guesses[r], feedbacks[r]))
  {
    if rounds > 0 {
      HistoryRounds(a, n, guesses, feedbacks, rounds - 1);
      SatisfiesConcat(a, History(n, guesses, feedbacks, rounds - 1),
        RoundConstraints(n, rounds - 1, guesses[rounds - 1], feedbacks[rounds - 1]));
    }
  }

  /** The store holds exactly when every position has one symbol and every recorded round holds. */
  lemma StoreParts(a: Var -> bool, n: nat, k: nat, guesses: seq<seq<int>>, feedbacks: seq<Feedback>)
    requires |guesses| == |feedbacks|
    requires forall r | 0 <= r < |guesses| :: |guesses[r]| == n
    ensures Satisfies(a, Store(n, k, guesses, feedbacks)) <==>
      && Satisfies(a, ExactlyOneSymbol(n, k))
      && forall r | 0 <= r < |guesses| :: Satisfies(a, RoundConstraints(n, r, guesses[r], feedbacks[r]))
  {
    SatisfiesConcat(a, ExactlyOneSymbol(n, k), History(n, guesses, feedbacks, |guesses|));
    HistoryRounds(a, n, guesses, feedbacks, |guesses|);
  }

  /** Counting over one more symbol of a position adds that symbol's variable. */
  lemma SecretVarsLast(a: Var -> bool, pos: int, k: nat)
    requires k > 0
    ensures CountTrue(a, SecretVars(pos, k)) == CountTrue(a, SecretVars(pos, k - 1)) + (if a(SecretVar(pos, k - 1)) then 1 else 0)
  {
    assert SecretVars(pos, k)[..k - 1] == SecretVars(pos, k - 1);
  }

  /** Counting over one more position adds that position's full-match variable. */
  lemma FullMatchVarsLast(a: Var -> bool, n: nat, round: int)
    requires n > 0
    ensures CountTrue(a, FullMatchVars(n, round)) == CountTrue(a, FullMatchVars(n - 1, round)) + (if a(FullMatchVar(round, n - 1)) then 1 else 0)
  {
    assert FullMatchVars(n, round)[..n - 1] == FullMatchVars(n - 1, round);
  }

  /** The symbols whose variable `s_pos_sym` the assignment makes true. */
  function TrueSymbolSet(a: Var -> bool, pos: int, k: nat): set<int>
  {
    set q | 0 <= q < k && a(SecretVar(pos, q))
  }

  /** The `PbEq` over `secret_vars[pos]` counts the symbols that are true at `pos`. */
  lemma {:induction false} SecretVarsCount(a: Var -> bool, pos: int, k: nat)
    ensures CountTrue(a, SecretVars(pos, k)) == |TrueSymbolSet(a, pos, k)|
  {
    if k > 0 {
      SecretVarsCount(a, pos, k - 1);
      SecretVarsLast(a, pos, k);
      TrueSymbolSetLast(a, pos, k);
    }
  }

  /** One more symbol adds that symbol to the true set when its variable is true. */
  lemma TrueSymbolSetLast(a: Var -> bool, pos: int, k: nat)
    requires k > 0
    ensures |TrueSymbolSet(a, pos, k)| == |TrueSymbolSet(a, pos, k - 1)| + (if a(SecretVar(pos, k - 1)) then 1 else 0)
  {
    if a(SecretVar(pos, k - 1)) {
      assert TrueSymbolSet(a, pos, k) == TrueSymbolSet(a, pos, k - 1) + {k - 1};
    } else {
      assert TrueSymbolSet(a, pos, k) == TrueSymbolSet(a, pos, k - 1);
    }
  }

  /** The `PbEq` over `fm` counts the positions whose full-match variable is true. */
  lemma {:induction false} FullMatchVarsCount(a: Var -> bool, n: nat, round: int)
    ensures CountTrue(a, FullMatchVars(n, round)) == |set p | 0 <= p < n && a(FullMatchVar(round, p))|
  {
    if n > 0 {
      FullMatchVarsCount(a, n - 1, round);
      FullMatchVarsLast(a, n, round);
      FullMatchSetLast(a, n, round);
    }
  }

  /** One more position adds that position to the full-match set when its variable is true. */
  lemma FullMatchSetLast(a: Var -> bool, n: nat, round: int)
    requires n > 0
    ensures |set p | 0 <= p < n && a(FullMatchVar(round, p))| ==
      |set p | 0 <= p < n - 1 && a(FullMatchVar(round, p))| + (if a(FullMatchVar(round, n - 1)) then 1 else 0)
  {
    var before := set p | 0 <= p < n - 1 && a(FullMatchVar(round, p));
    if a(FullMatchVar(round, n - 1)) {
      assert (set p | 0 <= p < n && a(FullMatchVar(round, p))) == before + {n - 1};
    } else {
      assert (set p | 0 <= p < n && a(FullMatchVar(round, p))) == before;
    }
  }

  /** The constructor's constraints hold exactly when every position has exactly one true symbol. */
  lemma ExactlyOneSymbolMeans(a: Var -> bool, n: nat, k: nat)
    ensures Satisfies(a, ExactlyOneSymbol(n, k)) <==> forall p | 0 <= p < n :: |TrueSymbolSet(a, p, k)| == 1
  {
    forall p | 0 <= p < n ensures Holds(a, ExactlyOneSymbol(n, k)[p]) <==> |TrueSymbolSet(a, p, k)| == 1 {
      SecretVarsCount(a, p, k);
    }
  }

  /** The links hold exactly when each `fm_pos` is true iff the secret has the guess symbol at `pos`. */
  lemma FullMatchLinksMeans(a: Var -> bool, n: nat, round: int, guess: seq<int>)
    requires |guess| == n
    ensures Satisfies(a, FullMatchLinks(n, round, guess)) <==>
      forall p | 0 <= p < n :: a(FullMatchVar(round, p)) == a(SecretVar(p, guess[p]))
  {
    forall p | 0 <= p < n
      ensures Holds(a, FullMatchLinks(n, round, guess)[p]) <==> a(FullMatchVar(round, p)) == a(SecretVar(p, guess[p]))
    {
    }
  }
}
