/**
 * What the constraints of `SymbolicConsistentAi` mean. A model of the store decodes to a
 * well-formed code consistent with every recorded round, and every such code is the
 * decoding of some model: the constraints characterise exactly the codes `is_consistent`
 * accepts.
 */
module EncodingSemantics {
  import opened Wrappers
  import opened FeedbackOracle
  import opened Consistency
  import opened Enumeration
  import opened Encoding
  import opened GreedyMatching

  // ----- Decoding a model -----

  /** The symbols `q < upTo` whose variable `s_pos_q` is true, in increasing order. */
  function TrueSymbols(a: Var -> bool, pos: int, upTo: nat): seq<int>
  {
    if upTo == 0 then []
    else TrueSymbols(a, pos, upTo - 1) + (if a(SecretVar(pos, upTo - 1)) then [upTo - 1] else [])
  }

  /** The guess `initial_guess` reads off a model: for each position, every symbol whose variable is true. */
  function Decode(a: Var -> bool, n: nat, k: nat): seq<int>
  {
    if n == 0 then [] else Decode(a, n - 1, k) + TrueSymbols(a, n - 1, k)
  }

  /** `a` gives the secret variables the values that describe `s`. */
  predicate Encodes(a: Var -> bool, s: seq<int>, k: nat)
  {
    forall p, q | 0 <= p < |s| && 0 <= q < k :: a(SecretVar(p, q)) == (s[p] == q)
  }

  lemma {:induction false} TrueSymbolsCount(a: Var -> bool, pos: int, upTo: nat)
    ensures |TrueSymbols(a, pos, upTo)| == CountTrue(a, SecretVars(pos, upTo))
    ensures forall q :: q in TrueSymbols(a, pos, upTo) <==> 0 <= q < upTo && a(SecretVar(pos, q))
  {
    if upTo > 0 {
      TrueSymbolsCount(a, pos, upTo - 1);
      assert SecretVars(pos, upTo)[..upTo - 1] == SecretVars(pos, upTo - 1);
    }
  }

  /** A position with exactly one true variable decodes to that one symbol. */
  lemma SingleSymbol(a: Var -> bool, pos: int, k: nat)
    requires CountTrue(a, SecretVars(pos, k)) == 1
    ensures |TrueSymbols(a, pos, k)| == 1 && 0 <= TrueSymbols(a, pos, k)[0] < k
    ensures forall q | 0 <= q < k :: a(SecretVar(pos, q)) == (TrueSymbols(a, pos, k)[0] == q)
  {
    TrueSymbolsCount(a, pos, k);
    var syms := TrueSymbols(a, pos, k);
    assert syms[0] in syms;
    forall q | 0 <= q < k && a(SecretVar(pos, q)) ensures syms[0] == q {
      assert q in syms;
    }
  }

  /** Exactly one true variable per position decodes to a well-formed code that the model describes. */
  lemma {:induction false} ExactlyOneDecodes(a: Var -> bool, n: nat, k: nat)
    requires Satisfies(a, ExactlyOneSymbol(n, k))
    ensures WellFormed(Decode(a, n, k), n, k) && Encodes(a, Decode(a, n, k), k)
  {
    if n > 0 {
      var m := n - 1;
      assert Satisfies(a, ExactlyOneSymbol(m, k)) by {
        forall p | 0 <= p < m ensures Holds(a, ExactlyOneSymbol(m, k)[p]) {
          assert Holds(a, ExactlyOneSymbol(n, k)[p]);
        }
      }
      ExactlyOneDecodes(a, m, k);
      assert Holds(a, ExactlyOneSymbol(n, k)[m]);
      SingleSymbol(a, m, k);
      DecodeStep(a, m, k);
    }
  }

  /** Appending the symbol of the last position keeps the decoding well-formed and described by the model. */
  lemma DecodeStep(a: Var -> bool, m: nat, k: nat)
    requires WellFormed(Decode(a, m, k), m, k) && Encodes(a, Decode(a, m, k), k)
    requires |TrueSymbols(a, m, k)| == 1 && 0 <= TrueSymbols(a, m, k)[0] < k
    requires forall q | 0 <= q < k :: a(SecretVar(m, q)) == (TrueSymbols(a, m, k)[0] == q)
    ensures WellFormed(Decode(a, m + 1, k), m + 1, k) && Encodes(a, Decode(a, m + 1, k), k)
  {
    var prefix := Decode(a, m, k);
    var s := Decode(a, m + 1, k);
    assert s == prefix + TrueSymbols(a, m, k);
    assert |s| == m + 1 && s[m] == TrueSymbols(a, m, k)[0];
    forall p | 0 <= p < m ensures s[p] == prefix[p] {
    }
  }

  // ----- One round -----

  /** Every guess of the history is a well-formed code. */
  predicate AllWellFormed(guesses: seq<seq<int>>, n: nat, k: nat)
  {
    forall r | 0 <= r < |guesses| :: WellFormed(guesses[r], n, k)
  }

  /** `fm_p` of round `round` is true exactly at the positions where `s` and `guess` agree. */
  predicate FullMatchesAre(a: Var -> bool, round: int, s: seq<int>, guess: seq<int>)
    requires |s| == |guess|
  {
    forall p | 0 <= p < |guess| :: a(FullMatchVar(round, p)) == (s[p] == guess[p])
  }

  /** `sm_i_j` of round `round` is true exactly for the pairs of the greedy matching. */
  predicate MatchesAreGreedy(a: Var -> bool, round: int, s: seq<int>, guess: seq<int>)
    requires |s| == |guess|
  {
    forall i, j | 0 <= i < |guess| && 0 <= j < |guess| && i != j ::
      a(SymbolMatchVar(round, i, j)) == (Pick(s, guess, i) == Some(j))
  }

  /** The left-hand side of a `match_exprs` biconditional, read as a condition on `a`. */
  predicate MatchCondition(a: Var -> bool, round: int, guess: seq<int>, i: nat, j: nat)
    requires i < |guess|
  {
    && !a(FullMatchVar(round, i))
    && a(SecretVar(j, guess[i]))
    && !a(FullMatchVar(round, j))
    && (forall prev | 0 <= prev < i && prev != j :: !a(SymbolMatchVar(round, prev, j)))
    && (forall prev | 0 <= prev < j && prev != i :: !a(SymbolMatchVar(round, i, prev)))
  }

  lemma FullMatchLinksHold(a: Var -> bool, n: nat, k: nat, round: int, s: seq<int>, guess: seq<int>)
    requires WellFormed(s, n, k) && WellFormed(guess, n, k) && Encodes(a, s, k)
    ensures Satisfies(a, FullMatchLinks(n, round, guess)) <==> FullMatchesAre(a, round, s, guess)
  {
    if FullMatchesAre(a, round, s, guess) {
      forall p | 0 <= p < n ensures Holds(a, FullMatchLinks(n, round, guess)[p]) {
        assert a(SecretVar(p, guess[p])) == (s[p] == guess[p]);
      }
    }
    if Satisfies(a, FullMatchLinks(n, round, guess)) {
      forall p | 0 <= p < n ensures a(FullMatchVar(round, p)) == (s[p] == guess[p]) {
        assert Holds(a, FullMatchLinks(n, round, guess)[p]);
        assert a(SecretVar(p, guess[p])) == (s[p] == guess[p]);
      }
    }
  }

  lemma {:induction false} FullMatchCountPrefix(a: Var -> bool, round: int, s: seq<int>, guess: seq<int>, u: nat)
    requires |s| == |guess| && u <= |guess| && FullMatchesAre(a, round, s, guess)
    ensures CountTrue(a, FullMatchVars(u, round)) == |set p | 0 <= p < u && guess[p] == s[p]|
  {
    var agree := set p | 0 <= p < u && guess[p] == s[p];
    if u > 0 {
      FullMatchCountPrefix(a, round, s, guess, u - 1);
      FullMatchVarsLast(a, u, round);
      AgreementsLast(s, guess, u);
      assert a(FullMatchVar(round, u - 1)) == (s[u - 1] == guess[u - 1]);
    } else {
      assert forall p :: p !in agree;
    }
  }

  /** One more position adds that position to the agreeing positions when guess and secret agree there. */
  lemma AgreementsLast(s: seq<int>, guess: seq<int>, u: nat)
    requires |s| == |guess| && 0 < u <= |guess|
    ensures |set p | 0 <= p < u && guess[p] == s[p]| ==
      |set p | 0 <= p < u - 1 && guess[p] == s[p]| + (if guess[u - 1] == s[u - 1] then 1 else 0)
  {
    var agree := set p | 0 <= p < u && guess[p] == s[p];
    var before := set p | 0 <= p < u - 1 && guess[p] == s[p];
    if guess[u - 1] == s[u - 1] {
      assert agree == before + {u - 1};
    } else {
      assert agree == before;
    }
  }

  /** With `fm` forced, the full-match count constraint states the full-match count of `eval_guess`. */
  lemma FullMatchCount(a: Var -> bool, round: int, s: seq<int>, guess: seq<int>)
    requires |s| == |guess| && FullMatchesAre(a, round, s, guess)
    ensures CountTrue(a, FullMatchVars(|guess|, round)) == Evaluate(s, guess).fullMatches
  {
    FullMatchCountPrefix(a, round, s, guess, |guess|);
    FullMatchesAreAgreements(s, guess);
  }

  lemma {:induction false} NotClaimedAboveHolds(a: Var -> bool, round: int, upTo: nat, j: int)
    ensures Satisfies(a, NotClaimedAbove(round, upTo, j)) <==>
      forall prev | 0 <= prev < upTo && prev != j :: !a(SymbolMatchVar(round, prev, j))
  {
    if upTo > 0 {
      var prev := upTo - 1;
      NotClaimedAboveHolds(a, round, prev, j);
      SatisfiesConcat(a, NotClaimedAbove(round, prev, j),
        if prev == j then [] else [Not(Atom(SymbolMatchVar(round, prev, j)))]);
      if prev != j {
        assert Holds(a, [Not(Atom(SymbolMatchVar(round, prev, j)))][0]) == !a(SymbolMatchVar(round, prev, j));
      }
    }
  }

  lemma {:induction false} NotMatchedLeftHolds(a: Var -> bool, round: int, i: int, upTo: nat)
    ensures Satisfies(a, NotMatchedLeft(round, i, upTo)) <==>
      forall prev | 0 <= prev < upTo && prev != i :: !a(SymbolMatchVar(round, i, prev))
  {
    if upTo > 0 {
      var prev := upTo - 1;
      NotMatchedLeftHolds(a, round, i, prev);
      SatisfiesConcat(a, NotMatchedLeft(round, i, prev),
        if prev == i then [] else [Not(Atom(SymbolMatchVar(round, i, prev)))]);
      if prev != i {
        assert Holds(a, [Not(Atom(SymbolMatchVar(round, i, prev)))][0]) == !a(SymbolMatchVar(round, i, prev));
      }
    }
  }

  /** A `match_exprs` entry holds exactly when `sm_i_j` equals its left-hand side. */
  lemma MatchExprHolds(a: Var -> bool, round: int, guess: seq<int>, i: nat, j: nat)
    requires i < |guess|
    ensures Holds(a, MatchExpr(round, guess, i, j)) <==> (a(SymbolMatchVar(round, i, j)) == MatchCondition(a, round, guess, i, j))
  {
    var head := [Not(Atom(FullMatchVar(round, i))), Atom(SecretVar(j, guess[i])), Not(Atom(FullMatchVar(round, j)))];
    var above := NotClaimedAbove(round, i, j);
    var left := NotMatchedLeft(round, i, j);
    SatisfiesConcat(a, head + above, left);
    SatisfiesConcat(a, head, above);
    NotClaimedAboveHolds(a, round, i, j);
    NotMatchedLeftHolds(a, round, i, j);
    assert Satisfies(a, head) <==> Holds(a, head[0]) && Holds(a, head[1]) && Holds(a, head[2]);
    assert Holds(a, head[0]) == !a(FullMatchVar(round, i));
    assert Holds(a, head[1]) == a(SecretVar(j, guess[i]));
    assert Holds(a, head[2]) == !a(FullMatchVar(round, j));
    assert Holds(a, And(head + above + left)) == Satisfies(a, head + above + left);
  }

  lemma {:induction false} MatchExprsHold(a: Var -> bool, round: int, guess: seq<int>, i: nat, upTo: nat)
    requires i < |guess|
    ensures Satisfies(a, MatchExprs(round, guess, i, upTo)) <==>
      forall j | 0 <= j < upTo && j != i :: Holds(a, MatchExpr(round, guess, i, j))
  {
    if upTo > 0 {
      var j := upTo - 1;
      MatchExprsHold(a, round, guess, i, j);
      SatisfiesConcat(a, MatchExprs(round, guess, i, j), if j == i then [] else [MatchExpr(round, guess, i, j)]);
      if j != i {
        assert [MatchExpr(round, guess, i, j)][0] == MatchExpr(round, guess, i, j);
      }
    }
  }

  /** The rows of `match_exprs` hold exactly when every `sm_i_j` equals its left-hand side. */
  lemma MatchRowsHold(a: Var -> bool, n: nat, round: int, guess: seq<int>)
    requires |guess| == n
    ensures Satisfies(a, MatchRows(n, round, guess)) <==>
      forall i, j | 0 <= i < n && 0 <= j < n && i != j ::
        a(SymbolMatchVar(round, i, j)) == MatchCondition(a, round, guess, i, j)
  {
    var rows := MatchRows(n, round, guess);
    if Satisfies(a, rows) {
      forall i, j | 0 <= i < n && 0 <= j < n && i != j
        ensures a(SymbolMatchVar(round, i, j)) == MatchCondition(a, round, guess, i, j)
      {
        assert Holds(a, rows[i]);
        MatchExprsHold(a, round, guess, i, n);
        assert Holds(a, MatchExpr(round, guess, i, j));
        MatchExprHolds(a, round, guess, i, j);
      }
    }
    if forall i, j | 0 <= i < n && 0 <= j < n && i != j :: a(SymbolMatchVar(round, i, j)) == MatchCondition(a, round, guess, i, j) {
      forall i | 0 <= i < n ensures Holds(a, rows[i]) {
        forall j | 0 <= j < n && j != i ensures Holds(a, MatchExpr(round, guess, i, j)) {
          MatchExprHolds(a, round, guess, i, j);
        }
        MatchExprsHold(a, round, guess, i, n);
      }
    }
  }

  /**
   * Once the smaller pairs follow the greedy matching, the left-hand side for `(i, j)` holds
   * exactly when the greedy matching pairs `i` with `j`.
   */
  lemma MatchConditionIsPick(a: Var -> bool, round: int, k: nat, s: seq<int>, guess: seq<int>, i: nat, j: nat)
    requires WellFormed(s, |guess|, k) && WellFormed(guess, |guess|, k) && Encodes(a, s, k)
    requires FullMatchesAre(a, round, s, guess)
    requires i < |guess| && j < |guess| && i != j
    requires forall prev | 0 <= prev < i && prev != j :: a(SymbolMatchVar(round, prev, j)) == (Pick(s, guess, prev) == Some(j))
    requires forall prev | 0 <= prev < j && prev != i :: a(SymbolMatchVar(round, i, prev)) == (Pick(s, guess, i) == Some(prev))
    ensures MatchCondition(a, round, guess, i, j) == (Pick(s, guess, i) == Some(j))
  {
    var claimed := Claimed(s, guess, i);
    ClaimedMembers(s, guess, i, j);
    assert a(SecretVar(j, guess[i])) == (s[j] == guess[i]);
    var free := (forall prev | 0 <= prev < i && prev != j :: !a(SymbolMatchVar(round, prev, j)));
    assert free == (j !in claimed) by {
      if j in claimed {
        var prev :| 0 <= prev < i && Pick(s, guess, prev) == Some(j);
        assert prev != j;
      }
    }
    var unmatched := (forall prev | 0 <= prev < j && prev != i :: !a(SymbolMatchVar(round, i, prev)));
    var pick := Pick(s, guess, i);
    assert unmatched == !(pick.Some? && pick.value < j) by {
      if pick.Some? && pick.value < j {
        assert a(SymbolMatchVar(round, i, pick.value));
      }
    }
    if s[i] != guess[i] {
      assert pick == FirstFree(s, guess, claimed, i, 0);
      if Eligible(s, guess, claimed, i, j) && !(pick.Some? && pick.value < j) {
        assert pick.Some?;
        assert pick == Some(j);
      }
    }
  }

  /**
   * The `sm` biconditionals have exactly one solution: in any assignment that satisfies
   * them, `sm_i_j` is true exactly for the pairs of the greedy matching.
   */
  lemma {:induction false} MatchesForced(a: Var -> bool, round: int, k: nat, s: seq<int>, guess: seq<int>, i: nat, j: nat)
    requires WellFormed(s, |guess|, k) && WellFormed(guess, |guess|, k) && Encodes(a, s, k)
    requires FullMatchesAre(a, round, s, guess)
    requires forall i', j' | 0 <= i' < |guess| && 0 <= j' < |guess| && i' != j' ::
      a(SymbolMatchVar(round, i', j')) == MatchCondition(a, round, guess, i', j')
    requires i < |guess| && j < |guess| && i != j
    ensures a(SymbolMatchVar(round, i, j)) == (Pick(s, guess, i) == Some(j))
    decreases i, j
  {
    forall prev | 0 <= prev < i && prev != j
      ensures a(SymbolMatchVar(round, prev, j)) == (Pick(s, guess, prev) == Some(j))
    {
      MatchesForced(a, round, k, s, guess, prev, j);
    }
    forall prev | 0 <= prev < j && prev != i
      ensures a(SymbolMatchVar(round, i, prev)) == (Pick(s, guess, i) == Some(prev))
    {
      MatchesForced(a, round, k, s, guess, i, prev);
    }
    MatchConditionIsPick(a, round, k, s, guess, i, j);
  }

  /** The greedy matching satisfies every `sm` biconditional. */
  lemma GreedySatisfiesRows(a: Var -> bool, round: int, k: nat, s: seq<int>, guess: seq<int>)
    requires WellFormed(s, |guess|, k) && WellFormed(guess, |guess|, k) && Encodes(a, s, k)
    requires FullMatchesAre(a, round, s, guess) && MatchesAreGreedy(a, round, s, guess)
    ensures forall i, j | 0 <= i < |guess| && 0 <= j < |guess| && i != j ::
      a(SymbolMatchVar(round, i, j)) == MatchCondition(a, round, guess, i, j)
  {
    forall i, j | 0 <= i < |guess| && 0 <= j < |guess| && i != j
      ensures a(SymbolMatchVar(round, i, j)) == MatchCondition(a, round, guess, i, j)
    {
      MatchConditionIsPick(a, round, k, s, guess, i, j);
    }
  }

  /** Counting a row over one more secret position adds that position's `sm` variable, unless it is the row's own. */
  lemma RowVarsLast(a: Var -> bool, round: int, i: int, upTo: nat)
    requires upTo > 0
    ensures CountTrue(a, RowVars(round, i, upTo)) ==
      CountTrue(a, RowVars(round, i, upTo - 1)) + (if upTo - 1 != i && a(SymbolMatchVar(round, i, upTo - 1)) then 1 else 0)
  {
    var j := upTo - 1;
    var extra := if j == i then [] else [SymbolMatchVar(round, i, j)];
    assert RowVars(round, i, upTo) == RowVars(round, i, j) + extra;
    CountTrueConcat(a, RowVars(round, i, j), extra);
    if j != i {
      assert extra[..0] == [];
    }
  }

  lemma {:induction false} RowCount(a: Var -> bool, round: int, s: seq<int>, guess: seq<int>, i: nat, upTo: nat)
    requires |s| == |guess| && i < |guess| && upTo <= |guess| && MatchesAreGreedy(a, round, s, guess)
    ensures CountTrue(a, RowVars(round, i, upTo)) ==
      (if Pick(s, guess, i).Some? && Pick(s, guess, i).value < upTo then 1 else 0)
  {
    if upTo > 0 {
      var j := upTo - 1;
      RowCount(a, round, s, guess, i, j);
      RowVarsLast(a, round, i, upTo);
      if j != i {
        assert a(SymbolMatchVar(round, i, j)) == (Pick(s, guess, i) == Some(j));
      }
    }
  }

  lemma {:induction false} SymbolMatchVarsCount(a: Var -> bool, round: int, s: seq<int>, guess: seq<int>, rows: nat)
    requires |s| == |guess| && rows <= |guess| && MatchesAreGreedy(a, round, s, guess)
    ensures CountTrue(a, SymbolMatchVars(|guess|, round, rows)) == MatchCount(Picks(s, guess, rows))
  {
    if rows > 0 {
      var i := rows - 1;
      SymbolMatchVarsCount(a, round, s, guess, i);
      CountTrueConcat(a, SymbolMatchVars(|guess|, round, i), RowVars(round, i, |guess|));
      RowCount(a, round, s, guess, i, |guess|);
      PicksPrefix(s, guess, rows, i);
    }
  }

  /** With `sm` forced to the greedy matching, the symbol-match count constraint states the symbol-match count of `eval_guess`. */
  lemma SymbolMatchCount(a: Var -> bool, round: int, s: seq<int>, guess: seq<int>)
    requires |s| == |guess| && MatchesAreGreedy(a, round, s, guess)
    ensures CountTrue(a, SymbolMatchVars(|guess|, round, |guess|)) == Evaluate(s, guess).symbolMatches
  {
    SymbolMatchVarsCount(a, round, s, guess, |guess|);
    MatchCountIsSymbolMatches(s, guess);
  }

  /** Splits the constraints of one round into its four parts. */
  lemma RoundParts(a: Var -> bool, n: nat, round: int, guess: seq<int>, feedback: Feedback)
    requires |guess| == n
    ensures Satisfies(a, RoundConstraints(n, round, guess, feedback)) <==>
      && Satisfies(a, FullMatchLinks(n, round, guess))
      && CountTrue(a, FullMatchVars(n, round)) == feedback.fullMatches
      && Satisfies(a, MatchRows(n, round, guess))
      && CountTrue(a, SymbolMatchVars(n, round, n)) == feedback.symbolMatches
  {
    var links := FullMatchLinks(n, round, guess);
    var fmCount := [PbEq(FullMatchVars(n, round), feedback.fullMatches)];
    var rows := MatchRows(n, round, guess);
    var smCount := [PbEq(SymbolMatchVars(n, round, n), feedback.symbolMatches)];
    SatisfiesConcat(a, links + fmCount + rows, smCount);
    SatisfiesConcat(a, links + fmCount, rows);
    SatisfiesConcat(a, links, fmCount);
    assert Satisfies(a, fmCount) <==> Holds(a, fmCount[0]);
    assert Satisfies(a, smCount) <==> Holds(a, smCount[0]);
  }

  /** Soundness of one round: a model describing `s` that satisfies the round's constraints makes the round's feedback `eval_guess(s, guess)`. */
  lemma RoundSound(a: Var -> bool, n: nat, k: nat, round: int, s: seq<int>, guess: seq<int>, feedback: Feedback)
    requires WellFormed(s, n, k) && WellFormed(guess, n, k) && Encodes(a, s, k)
    requires Satisfies(a, RoundConstraints(n, round, guess, feedback))
    ensures IsConsistent(s, guess, feedback)
  {
    RoundParts(a, n, round, guess, feedback);
    FullMatchLinksHold(a, n, k, round, s, guess);
    FullMatchCount(a, round, s, guess);
    MatchRowsHold(a, n, round, guess);
    forall i, j | 0 <= i < n && 0 <= j < n && i != j
      ensures a(SymbolMatchVar(round, i, j)) == (Pick(s, guess, i) == Some(j))
    {
      MatchesForced(a, round, k, s, guess, i, j);
    }
    SymbolMatchCount(a, round, s, guess);
  }

  /** Completeness of one round: when `s` is consistent with the round, the greedy values of `fm` and `sm` satisfy it. */
  lemma RoundComplete(a: Var -> bool, n: nat, k: nat, round: int, s: seq<int>, guess: seq<int>, feedback: Feedback)
    requires WellFormed(s, n, k) && WellFormed(guess, n, k) && Encodes(a, s, k)
    requires FullMatchesAre(a, round, s, guess) && MatchesAreGreedy(a, round, s, guess)
    requires IsConsistent(s, guess, feedback)
    ensures Satisfies(a, RoundConstraints(n, round, guess, feedback))
  {
    RoundParts(a, n, round, guess, feedback);
    FullMatchLinksHold(a, n, k, round, s, guess);
    FullMatchCount(a, round, s, guess);
    GreedySatisfiesRows(a, round, k, s, guess);
    MatchRowsHold(a, n, round, guess);
    SymbolMatchCount(a, round, s, guess);
  }

  // ----- The whole store -----

  /** Two well-formed codes described by the same model are equal. */
  lemma EncodedUnique(a: Var -> bool, n: nat, k: nat, s: seq<int>, t: seq<int>)
    requires WellFormed(s, n, k) && WellFormed(t, n, k) && Encodes(a, s, k) && Encodes(a, t, k)
    ensures s == t
  {
    forall p | 0 <= p < n ensures s[p] == t[p] {
      assert a(SecretVar(p, s[p]));
    }
  }

  /** A model describing a well-formed code decodes to that code. */
  lemma DecodeEncoded(a: Var -> bool, n: nat, k: nat, s: seq<int>)
    requires WellFormed(s, n, k) && Encodes(a, s, k)
    ensures Satisfies(a, ExactlyOneSymbol(n, k)) && Decode(a, n, k) == s
  {
    forall p | 0 <= p < n ensures Holds(a, ExactlyOneSymbol(n, k)[p]) {
      OneTrueSymbol(a, p, k, s[p], k);
    }
    ExactlyOneDecodes(a, n, k);
    EncodedUnique(a, n, k, s, Decode(a, n, k));
  }

  /** When `s_pos_q` is true for `q == x` only, `x` is counted once among the first `upTo` symbols exactly when it is one of them. */
  lemma {:induction false} OneTrueSymbol(a: Var -> bool, pos: int, k: nat, x: int, upTo: nat)
    requires upTo <= k && 0 <= x < k
    requires forall q | 0 <= q < k :: a(SecretVar(pos, q)) == (q == x)
    ensures CountTrue(a, SecretVars(pos, upTo)) == (if x < upTo then 1 else 0)
  {
    if upTo > 0 {
      OneTrueSymbol(a, pos, k, x, upTo - 1);
      assert SecretVars(pos, upTo)[..upTo - 1] == SecretVars(pos, upTo - 1);
    }
  }

  /** The value the canonical model of `s` gives each variable: the code itself, and each round's greedy matching against it. */
  predicate WitnessValue(s: seq<int>, guesses: seq<seq<int>>, v: Var)
  {
    match v
    case SecretVar(p, q) => 0 <= p < |s| && s[p] == q
    case FullMatchVar(r, p) => 0 <= r < |guesses| && 0 <= p < |s| && p < |guesses[r]| && s[p] == guesses[r][p]
    case SymbolMatchVar(r, i, j) =>
      && 0 <= r < |guesses| && |guesses[r]| == |s| && 0 <= i < |s| && i != j
      && Pick(s, guesses[r], i) == Some(j)
  }

  function Witness(s: seq<int>, guesses: seq<seq<int>>): Var -> bool
  {
    v => WitnessValue(s, guesses, v)
  }

  /** Soundness of the store: every model decodes to a well-formed code consistent with the history. */
  lemma StoreSound(a: Var -> bool, n: nat, k: nat, guesses: seq<seq<int>>, feedbacks: seq<Feedback>)
    requires |guesses| == |feedbacks| && AllWellFormed(guesses, n, k)
    requires Satisfies(a, Store(n, k, guesses, feedbacks))
    ensures WellFormed(Decode(a, n, k), n, k)
    ensures ConsistentWithHistory(Decode(a, n, k), guesses, feedbacks)
  {
    StoreParts(a, n, k, guesses, feedbacks);
    ExactlyOneDecodes(a, n, k);
    var s := Decode(a, n, k);
    forall t | 0 <= t < |guesses| ensures IsConsistent(s, guesses[t], feedbacks[t]) {
      assert WellFormed(guesses[t], n, k);
      RoundSound(a, n, k, t, s, guesses[t], feedbacks[t]);
    }
  }

  /** Completeness of the store: every well-formed code consistent with the history is the decoding of a model. */
  lemma StoreComplete(n: nat, k: nat, s: seq<int>, guesses: seq<seq<int>>, feedbacks: seq<Feedback>)
    requires |guesses| == |feedbacks| && AllWellFormed(guesses, n, k)
    requires WellFormed(s, n, k) && ConsistentWithHistory(s, guesses, feedbacks)
    ensures Satisfies(Witness(s, guesses), Store(n, k, guesses, feedbacks))
    ensures Decode(Witness(s, guesses), n, k) == s
  {
    var a := Witness(s, guesses);
    assert Encodes(a, s, k);
    DecodeEncoded(a, n, k, s);
    forall r | 0 <= r < |guesses| ensures Satisfies(a, RoundConstraints(n, r, guesses[r], feedbacks[r])) {
      assert WellFormed(guesses[r], n, k);
      assert FullMatchesAre(a, r, s, guesses[r]) && MatchesAreGreedy(a, r, s, guesses[r]);
      RoundComplete(a, n, k, r, s, guesses[r], feedbacks[r]);
    }
    StoreParts(a, n, k, guesses, feedbacks);
  }

  /** `check()` answers `sat` exactly when some well-formed code is consistent with the history. */
  lemma SatisfiableIffConsistentCode(n: nat, k: nat, guesses: seq<seq<int>>, feedbacks: seq<Feedback>)
    requires |guesses| == |feedbacks| && AllWellFormed(guesses, n, k)
    ensures Satisfiable(Store(n, k, guesses, feedbacks)) <==>
      exists s :: WellFormed(s, n, k) && ConsistentWithHistory(s, guesses, feedbacks)
  {
    if Satisfiable(Store(n, k, guesses, feedbacks)) {
      var a :| Satisfies(a, Store(n, k, guesses, feedbacks));
      StoreSound(a, n, k, guesses, feedbacks);
    }
    if exists s :: WellFormed(s, n, k) && ConsistentWithHistory(s, guesses, feedbacks) {
      var s :| WellFormed(s, n, k) && ConsistentWithHistory(s, guesses, feedbacks);
      StoreComplete(n, k, s, guesses, feedbacks);
    }
  }

  /** In a genuine game against a well-formed secret the store stays satisfiable, so `check()` never answers `unsat`. */
  lemma GenuineGameSatisfiable(n: nat, k: nat, secret: seq<int>, guesses: seq<seq<int>>, feedbacks: seq<Feedback>)
    requires |guesses| == |feedbacks| && AllWellFormed(guesses, n, k) && WellFormed(secret, n, k)
    requires forall r | 0 <= r < |guesses| :: feedbacks[r] == Evaluate(secret, guesses[r])
    ensures Satisfiable(Store(n, k, guesses, feedbacks))
  {
    GenuineHistoryConsistent(secret, guesses, feedbacks);
    StoreComplete(n, k, secret, guesses, feedbacks);
  }
}
