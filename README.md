# Mastermind consistent-guess players, modelled in Dafny

This project models `mastermind.py`, a Mastermind code breaker. A secret is a sequence of
`N` symbols drawn from `0 .. K-1`. After each guess, the player receives a feedback record with
two counts:

- the number of **full matches**: right symbol in the right position;
- the number of **symbol matches**: right symbol in the wrong position, each secret symbol
  used at most once.

All three players follow the same rule: the next guess is always a code that is *consistent*
with every (guess, feedback) pair seen so far.

- `ExplicitConsistentAi` materialises every code of `product(range(K), repeat=N)` and filters
  the list after each round. It always guesses the head of the list.
- `LazyExplicitConsistentAi` walks the same enumeration through a generator. The generator
  checks each code against the history lists at the moment it is pulled.
- `SymbolicConsistentAi` translates the history into boolean and pseudo-boolean constraints
  for a SAT solver. Its next guess is decoded from any model of those constraints.

The model keeps `N` and `K` as parameters (`n`, `k`). The constants 16 and 6 are only
configuration.

Modules, in dependency order:

- `ListOps`: `list.remove` as a function returning `Option`; the greedy symbol overlap.
- `FeedbackOracle`: `eval_guess`.
  - `Evaluate` is the reference meaning.
  - `EvalGuess` is the imperative loop, proved equal to `Evaluate`.
- `Consistency`: `is_consistent` and `is_consistent_with_history`.
- `Enumeration`: `product(range(K), repeat=N)`, as the base-`K` digit strings of
  `0 .. K^N - 1`. It is proved complete, duplicate-free and lexicographically ordered.
- `ExplicitStrategies`: the explicit and lazy players as classes.
  - Both are proved to propose `Proposal`: the first code in enumeration order that is
    consistent with the history and not yet played.
  - `PlayInLockstep` drives both players with one stream of feedback and proves that they
    make the same guesses.
- `GreedyMatching`: the matching that the feedback loop builds implicitly. Guess position `i`
  takes the leftmost secret position that is not a full match, not already taken, and holds
  `guess[i]`. Its size is the symbol-match count.
- `Encoding`: the formulas `SymbolicConsistentAi` adds to its solver, as a small formula
  datatype over the variables `s_pos_sym`, `fm` and `sm`. The solver's assertion store is a
  sequence of those formulas.
- `EncodingSemantics`: what the store means.
  - A secret extends to a model of one round's constraints exactly when it is consistent
    with that round (`RoundSound`, `RoundComplete`).
  - Hence the whole store is satisfiable exactly when some well-formed code is consistent
    with the whole history (`SatisfiableIffConsistentCode`).
  - Every model decodes to such a code (`StoreSound`).
- `SymbolicStrategy`: the symbolic player as a class whose `constraints` field is the
  assertion store. Formulas are appended in the order `make_guess` adds them.

The model follows the code in these places where a stricter reading of the game could
differ:

- `eval_guess` does not reject sequences of different lengths. `zip` truncates, and guess
  positions beyond the end of the secret count as full matches, on top of the zipped positions
  where the two agree (`LongerGuessCountsTailAsFull`).
- Feedback records are not validated.
- The decoding loop's `continue` does not leave the inner loop, so decoding appends every true
  symbol of a position. The length assertion at line 144 is what the exactly-one constraint
  guarantees (`ExactlyOneDecodes`).
- An unsatisfiable store is not a handled error. `model()` would raise.

All files are verified together, with or without `--warn-contradictory-assumptions`:

    dafny verify --resource-limit 2000000 --verification-time-limit 0 *.dfy

## Model

| member | source | states |
|---|---|---|
| ListOps.FirstIndex | content/blog/playing-hard-mastermind-games-with-a-sat-based-ai/mastermind.py:30 | the index `list.remove` deletes is the first occurrence of the symbol |
| ListOps.ListRemove | content/blog/playing-hard-mastermind-games-with-a-sat-based-ai/mastermind.py:29-33 | `remove` fails (`None`, the `ValueError`) exactly when the symbol is absent; otherwise the list loses one element, and its multiset loses exactly one copy of that symbol |
| ListOps.ListRemoveHead | content/blog/playing-hard-mastermind-games-with-a-sat-based-ai/mastermind.py:30 | removing a symbol that heads the list drops just the head |
| ListOps.ListRemoveCons | content/blog/playing-hard-mastermind-games-with-a-sat-based-ai/mastermind.py:30 | removal keeps every element before the first occurrence |
| ListOps.Overlap | content/blog/playing-hard-mastermind-games-with-a-sat-based-ai/mastermind.py:27-33 | reference definition of the symbol-match loop: each symbol of the guess remainder in turn removes its first copy from the secret remainder when there is one, and counts 1; its meaning is `OverlapIsCommonCount` |
| ListOps.OverlapIsCommonCount | content/blog/playing-hard-mastermind-games-with-a-sat-based-ai/mastermind.py:27-33 | the greedy remove-and-count loop counts the size of the multiset intersection of the two remainders |
| ListOps.OverlapBounded | content/blog/playing-hard-mastermind-games-with-a-sat-based-ai/mastermind.py:27-33 | the symbol-match count is at most the length of either remainder |
| ListOps.OverlapSymmetric | content/blog/playing-hard-mastermind-games-with-a-sat-based-ai/mastermind.py:27-33 | scanning the secret remainder against the guess remainder would count the same |
| FeedbackOracle.GuessRest | content/blog/playing-hard-mastermind-games-with-a-sat-based-ai/mastermind.py:22 | reference definition of `guess_rest`: the guess symbols at the zipped positions that are not full matches |
| FeedbackOracle.SecretRest | content/blog/playing-hard-mastermind-games-with-a-sat-based-ai/mastermind.py:23 | reference definition of `secret_rest`: the secret symbols at the zipped positions that are not full matches |
| FeedbackOracle.Evaluate | content/blog/playing-hard-mastermind-games-with-a-sat-based-ai/mastermind.py:19-34 | reference definition of `eval_guess`: full matches are the guess length minus the guess remainder, symbol matches are `Overlap` of the remainders; `EvalGuess`, `FullMatchesAreAgreements` and `SymbolMatchesAreCommonSymbols` state what it computes |
| FeedbackOracle.Unmatched | content/blog/playing-hard-mastermind-games-with-a-sat-based-ai/mastermind.py:22-23 | the remainder comprehensions keep at most one symbol per zipped position |
| FeedbackOracle.EvalGuess | content/blog/playing-hard-mastermind-games-with-a-sat-based-ai/mastermind.py:19-34 | the loop that mutates `secret_rest` in place returns exactly `Evaluate`: full matches are length minus remainder, symbol matches are the multiset overlap |
| FeedbackOracle.ConsumeStep | content/blog/playing-hard-mastermind-games-with-a-sat-based-ai/mastermind.py:28-33 | one iteration keeps the overlap still to be found: a successful `remove` accounts for one match, a `ValueError` for none |
| FeedbackOracle.UnmatchedAgreements | content/blog/playing-hard-mastermind-games-with-a-sat-based-ai/mastermind.py:22-24 | remainder length plus the number of agreeing positions is the code length |
| FeedbackOracle.FullMatchesAreAgreements | content/blog/playing-hard-mastermind-games-with-a-sat-based-ai/mastermind.py:21-24 | for equal lengths, `full_matches` is the number of positions where guess and secret agree |
| FeedbackOracle.FeedbackBounds | content/blog/playing-hard-mastermind-games-with-a-sat-based-ai/mastermind.py:19-34 | both counts are non-negative and their sum is at most `N` |
| FeedbackOracle.SymbolMatchesAreCommonSymbols | content/blog/playing-hard-mastermind-games-with-a-sat-based-ai/mastermind.py:26-33 | `symbol_matches` is the number of symbols the two remainders share, counted with multiplicity |
| FeedbackOracle.LongerGuessCountsTailAsFull | content/blog/playing-hard-mastermind-games-with-a-sat-based-ai/mastermind.py:22-24 | with `zip` truncation, a guess longer than the secret gets exactly one full match per position past the end of the secret plus one per zipped position where the two agree |
| FeedbackOracle.UnmatchedEmptyIffAgree | content/blog/playing-hard-mastermind-games-with-a-sat-based-ai/mastermind.py:22-23 | a remainder is empty exactly when the two sequences agree on every position |
| FeedbackOracle.EvaluateSelf | content/blog/playing-hard-mastermind-games-with-a-sat-based-ai/mastermind.py:19-34 | a code evaluated against itself gives `Feedback(N, 0)` |
| FeedbackOracle.WinIffEqual | content/blog/playing-hard-mastermind-games-with-a-sat-based-ai/mastermind.py:65 | the win test `full_matches == N` holds exactly when the guess equals the secret |
| FeedbackOracle.WorkedExample | content/blog/playing-hard-mastermind-games-with-a-sat-based-ai/mastermind.py:19-34 | the complete feedback of a concrete secret and guess: one full match and two symbol matches |
| Consistency.IsConsistent | content/blog/playing-hard-mastermind-games-with-a-sat-based-ai/mastermind.py:37-39 | reference definition of `is_consistent`: the recorded feedback equals `Evaluate` of the candidate against the guess |
| Consistency.ConsistentWithHistory | content/blog/playing-hard-mastermind-games-with-a-sat-based-ai/mastermind.py:42-47 | reference definition of `is_consistent_with_history`: `IsConsistent` holds for every pair of the two lists up to the shorter length, as `zip` pairs them |
| Consistency.IsConsistentWithHistory | content/blog/playing-hard-mastermind-games-with-a-sat-based-ai/mastermind.py:42-47 | the early-exit loop answers `ConsistentWithHistory`: every zipped pair is consistent |
| Consistency.EmptyHistoryConsistent | content/blog/playing-hard-mastermind-games-with-a-sat-based-ai/mastermind.py:42-47 | an empty guess list or feedback list rules nothing out |
| Consistency.HistoryAppend | content/blog/playing-hard-mastermind-games-with-a-sat-based-ai/mastermind.py:37-47 | appending a round adds exactly the condition `is_consistent` for that round |
| Consistency.HistoryExtend | content/blog/playing-hard-mastermind-games-with-a-sat-based-ai/mastermind.py:42-47 | consistency with a longer history implies consistency with every prefix |
| Consistency.GenuineHistoryConsistent | content/blog/playing-hard-mastermind-games-with-a-sat-based-ai/mastermind.py:37-47 | the real secret is consistent with feedback it produced itself |
| Consistency.ConsistentAvoidsLosingGuesses | content/blog/playing-hard-mastermind-games-with-a-sat-based-ai/mastermind.py:37-47 | a code consistent with the history differs from every earlier guess that did not win |
| Enumeration.WellFormed | content/blog/playing-hard-mastermind-games-with-a-sat-based-ai/mastermind.py:87 | reference definition of a code of `product(range(K), repeat=N)`: length `N`, every symbol in `0 .. K-1` |
| Enumeration.Digits | content/blog/playing-hard-mastermind-games-with-a-sat-based-ai/mastermind.py:87 | the `idx`-th code of `product` is a length-`N` sequence over `0 .. K-1` |
| Enumeration.Enumerate | content/blog/playing-hard-mastermind-games-with-a-sat-based-ai/mastermind.py:87 | `product(range(K), repeat=N)` has `K^N` elements |
| Enumeration.ValueOfDigits | content/blog/playing-hard-mastermind-games-with-a-sat-based-ai/mastermind.py:87 | reading the `idx`-th code as a base-`K` numeral gives back `idx` |
| Enumeration.DigitsSplit | content/blog/playing-hard-mastermind-games-with-a-sat-based-ai/mastermind.py:87 | the `idx`-th code is the `idx / K`-th shorter code followed by the digit `idx % K` |
| Enumeration.DigitsOfValue | content/blog/playing-hard-mastermind-games-with-a-sat-based-ai/mastermind.py:87 | every well-formed code occurs at the index its base-`K` value names |
| Enumeration.EnumerationComplete | content/blog/playing-hard-mastermind-games-with-a-sat-based-ai/mastermind.py:87 | a sequence is enumerated exactly when it has length `N` and symbols in `0 .. K-1` |
| Enumeration.EnumerationDistinct | content/blog/playing-hard-mastermind-games-with-a-sat-based-ai/mastermind.py:87 | `Distinct(Enumerate(n, k))`: different indices give different codes, so the enumeration lists no code twice |
| Enumeration.EnumerationLexOrdered | content/blog/playing-hard-mastermind-games-with-a-sat-based-ai/mastermind.py:87 | the enumeration is in strictly increasing lexicographic order |
| Enumeration.DigitsLexOrdered | content/blog/playing-hard-mastermind-games-with-a-sat-based-ai/mastermind.py:87 | a smaller index gives a lexicographically smaller code |
| ExplicitStrategies.Fresh | content/blog/playing-hard-mastermind-games-with-a-sat-based-ai/mastermind.py:94-95 | reference definition of an open code: consistent with every recorded round and not yet guessed |
| ExplicitStrategies.FirstFreshFrom | content/blog/playing-hard-mastermind-games-with-a-sat-based-ai/mastermind.py:105-106 | the index found is open, that is consistent and unplayed, and no earlier index from the start point is |
| ExplicitStrategies.Proposal | content/blog/playing-hard-mastermind-games-with-a-sat-based-ai/mastermind.py:89-91 | the proposed guess is an enumerated open code; no proposal means no enumerated code is open |
| ExplicitStrategies.ProposalIsFirstFresh | content/blog/playing-hard-mastermind-games-with-a-sat-based-ai/mastermind.py:89-91 | the proposal is the first open code in enumeration order |
| ExplicitStrategies.Keep | content/blog/playing-hard-mastermind-games-with-a-sat-based-ai/mastermind.py:94-95 | the filter comprehension yields an order-preserving sublist; it is strictly shorter when the list is headed by `last_guess` |
| ExplicitStrategies.KeepMembers | content/blog/playing-hard-mastermind-games-with-a-sat-based-ai/mastermind.py:94-95 | a code survives the filter exactly when it was a candidate, is consistent with the last round and differs from `last_guess` |
| ExplicitStrategies.Candidates | content/blog/playing-hard-mastermind-games-with-a-sat-based-ai/mastermind.py:87-95 | reference definition of `self.candidates` after a history: the enumeration filtered by `Keep` once per recorded round; `CandidatesAreFreshCodes` and `CandidateMembers` state what it holds |
| ExplicitStrategies.FreshAppend | content/blog/playing-hard-mastermind-games-with-a-sat-based-ai/mastermind.py:94-95 | a code is open after a round exactly when it was open before and passes that round's filter |
| ExplicitStrategies.KeepFreshCodes | content/blog/playing-hard-mastermind-games-with-a-sat-based-ai/mastermind.py:94-95 | filtering the open codes by one more round gives the open codes for the longer history |
| ExplicitStrategies.CandidatesAreFreshCodes | content/blog/playing-hard-mastermind-games-with-a-sat-based-ai/mastermind.py:87-95 | the candidate list after any number of rounds is the enumeration restricted to the open codes, in order |
| ExplicitStrategies.FreshCodesNoHistory | content/blog/playing-hard-mastermind-games-with-a-sat-based-ai/mastermind.py:87 | before any round, every code is a candidate |
| ExplicitStrategies.FreshCodesHead | content/blog/playing-hard-mastermind-games-with-a-sat-based-ai/mastermind.py:89-91 | the head of the open codes is the first open code, and there is none exactly when the list is empty |
| ExplicitStrategies.CandidatesHeadIsProposal | content/blog/playing-hard-mastermind-games-with-a-sat-based-ai/mastermind.py:89-91 | `candidates[0]` is the proposal; an empty list means there is no proposal |
| ExplicitStrategies.FreshCodesMembers | content/blog/playing-hard-mastermind-games-with-a-sat-based-ai/mastermind.py:94-95 | a code is among the open codes exactly when it is enumerated and open |
| ExplicitStrategies.CandidateMembers | content/blog/playing-hard-mastermind-games-with-a-sat-based-ai/mastermind.py:87-95 | a code is a candidate exactly when it is well-formed, consistent with the history and never guessed |
| ExplicitStrategies.SecretRemainsCandidate | content/blog/playing-hard-mastermind-games-with-a-sat-based-ai/mastermind.py:63-67 | under genuine, non-winning feedback the true secret is never filtered out |
| ExplicitStrategies.Settled | content/blog/playing-hard-mastermind-games-with-a-sat-based-ai/mastermind.py:105-106 | reference definition of the generator state: every code before the cursor is closed, that is inconsistent or already guessed |
| ExplicitStrategies.SettledThenProposal | content/blog/playing-hard-mastermind-games-with-a-sat-based-ai/mastermind.py:105-110 | when every code before the cursor is closed, the consistent code at the cursor is the proposal |
| ExplicitStrategies.SettledThenNoProposal | content/blog/playing-hard-mastermind-games-with-a-sat-based-ai/mastermind.py:105-110 | a generator that is exhausted with every code closed means there is no proposal |
| ExplicitStrategies.SettledAfterGuess | content/blog/playing-hard-mastermind-games-with-a-sat-based-ai/mastermind.py:109 | after the yielded code is appended to `guesses`, every code up to and including it is closed |
| ExplicitStrategies.SettledAfterFeedback | content/blog/playing-hard-mastermind-games-with-a-sat-based-ai/mastermind.py:113 | appending a feedback never reopens a code the generator has passed |
| ExplicitStrategies.PlayedAfterGuess | content/blog/playing-hard-mastermind-games-with-a-sat-based-ai/mastermind.py:109 | every played guess is a code the generator has already passed |
| ExplicitStrategies.NotYetPlayed | content/blog/playing-hard-mastermind-games-with-a-sat-based-ai/mastermind.py:105-110 | a code at or after the cursor has not been played |
| ExplicitStrategies.ExplicitConsistentAi.constructor | content/blog/playing-hard-mastermind-games-with-a-sat-based-ai/mastermind.py:85-87 | starts with no last guess and the full enumeration as candidates |
| ExplicitStrategies.ExplicitConsistentAi.InitialGuess | content/blog/playing-hard-mastermind-games-with-a-sat-based-ai/mastermind.py:89-91 | the guess is the head of the candidate list, which is the proposal for the history |
| ExplicitStrategies.ExplicitConsistentAi.MakeGuess | content/blog/playing-hard-mastermind-games-with-a-sat-based-ai/mastermind.py:93-96 | the new candidates are an order-preserving sublist holding exactly the old candidates consistent with the last round and different from `last_guess`; the list strictly shrinks; the next guess is the proposal for the extended history, and `last_guess` changes only when there is one |
| ExplicitStrategies.LazyExplicitConsistentAi.constructor | content/blog/playing-hard-mastermind-games-with-a-sat-based-ai/mastermind.py:102-106 | empty history lists; the generator is at the start of the enumeration |
| ExplicitStrategies.LazyExplicitConsistentAi.Next | content/blog/playing-hard-mastermind-games-with-a-sat-based-ai/mastermind.py:105-106 | the generator yields the next code after the cursor that is consistent with the current lists, closing every code it skips; at exhaustion every code is closed |
| ExplicitStrategies.LazyExplicitConsistentAi.InitialGuess | content/blog/playing-hard-mastermind-games-with-a-sat-based-ai/mastermind.py:108-110 | the pulled code is the proposal for the history and is appended to `guesses` |
| ExplicitStrategies.LazyExplicitConsistentAi.MakeGuess | content/blog/playing-hard-mastermind-games-with-a-sat-based-ai/mastermind.py:112-114 | the feedback is appended, and the pulled code is the proposal for the extended history |
| ExplicitStrategies.PlayInLockstep | content/blog/playing-hard-mastermind-games-with-a-sat-based-ai/mastermind.py:82-114 | fed the same feedback stream, the explicit and lazy players make the same guesses, each the proposal for the history before it, and stop at the same point |
| GreedyMatching.FirstFree | content/blog/playing-hard-mastermind-games-with-a-sat-based-ai/mastermind.py:30 | the secret position taken is the first free one holding the symbol, as `remove` takes the first occurrence |
| GreedyMatching.Picks | content/blog/playing-hard-mastermind-games-with-a-sat-based-ai/mastermind.py:28-33 | one pick per scanned guess position |
| GreedyMatching.Pick | content/blog/playing-hard-mastermind-games-with-a-sat-based-ai/mastermind.py:28-33 | a match joins a non-full-match guess position to a non-full-match secret position with the same symbol that no earlier guess position took |
| GreedyMatching.MatchCount | content/blog/playing-hard-mastermind-games-with-a-sat-based-ai/mastermind.py:31 | there is at most one match per guess position |
| GreedyMatching.PicksPrefix | content/blog/playing-hard-mastermind-games-with-a-sat-based-ai/mastermind.py:28-33 | later positions never change an earlier pick |
| GreedyMatching.ClaimedMembers | content/blog/playing-hard-mastermind-games-with-a-sat-based-ai/mastermind.py:28-31 | a secret position is taken (removed from `secret_rest`) before guess position `i` exactly when some earlier guess position picked it; the encoding's first `extend` states the same condition |
| GreedyMatching.PicksInjective | content/blog/playing-hard-mastermind-games-with-a-sat-based-ai/mastermind.py:30 | no secret position is matched twice |
| GreedyMatching.FirstFreeRemoves | content/blog/playing-hard-mastermind-games-with-a-sat-based-ai/mastermind.py:29-32 | `remove` on the still-unmatched secret symbols fails exactly when no free position holds the symbol; otherwise it deletes that position's symbol |
| GreedyMatching.MatchCountInvariant | content/blog/playing-hard-mastermind-games-with-a-sat-based-ai/mastermind.py:27-33 | the matches made so far plus the overlap still to be found equal the final symbol-match count |
| GreedyMatching.MatchCountIsSymbolMatches | content/blog/playing-hard-mastermind-games-with-a-sat-based-ai/mastermind.py:26-33 | the greedy matching has exactly `symbol_matches` pairs |
| Encoding.Holds | content/blog/playing-hard-mastermind-games-with-a-sat-based-ai/mastermind.py:134 | reference definition of what a model makes true: atoms, `Not`, `And`, `==` between formulas, and a unit-coefficient `PbEq` as a count of true variables |
| Encoding.Satisfies | content/blog/playing-hard-mastermind-games-with-a-sat-based-ai/mastermind.py:134 | reference definition of a model of the store: every added formula holds |
| Encoding.CountTrue | content/blog/playing-hard-mastermind-games-with-a-sat-based-ai/mastermind.py:130-131 | a unit-coefficient pseudo-boolean sum is at most the number of its terms |
| Encoding.CountTrueConcat | content/blog/playing-hard-mastermind-games-with-a-sat-based-ai/mastermind.py:184-186 | the sum over concatenated term lists is the sum of the two sums |
| Encoding.SatisfiesConcat | content/blog/playing-hard-mastermind-games-with-a-sat-based-ai/mastermind.py:131 | satisfying a store built by successive `solver.add` calls means satisfying every part of it |
| Encoding.SecretVars | content/blog/playing-hard-mastermind-games-with-a-sat-based-ai/mastermind.py:125-126 | reference definition of `secret_vars[pos]` (its ensures lists the variables for the proofs); what the `PbEq` over it counts is `SecretVarsCount` |
| Encoding.TrueSymbolSet | content/blog/playing-hard-mastermind-games-with-a-sat-based-ai/mastermind.py:139-141 | reference definition of the symbols whose variable is true at a position |
| Encoding.SecretVarsCount | content/blog/playing-hard-mastermind-games-with-a-sat-based-ai/mastermind.py:130-131 | the `PbEq` sum over `secret_vars[pos]` is the number of symbols a model makes true at `pos` |
| Encoding.ExactlyOneSymbol | content/blog/playing-hard-mastermind-games-with-a-sat-based-ai/mastermind.py:128-131 | reference definition of the constructor's constraints (its ensures lists them for the proofs); their meaning is `ExactlyOneSymbolMeans` |
| Encoding.ExactlyOneSymbolMeans | content/blog/playing-hard-mastermind-games-with-a-sat-based-ai/mastermind.py:128-131 | a model satisfies the constructor's constraints exactly when every position has exactly one true symbol |
| Encoding.FullMatchLinks | content/blog/playing-hard-mastermind-games-with-a-sat-based-ai/mastermind.py:155-157 | reference definition of the full-match links (its ensures lists them for the proofs); their meaning is `FullMatchLinksMeans` |
| Encoding.FullMatchLinksMeans | content/blog/playing-hard-mastermind-games-with-a-sat-based-ai/mastermind.py:155-157 | the links hold exactly when every `fm_pos` has the value of `s_pos_{last_guess[pos]}` |
| Encoding.FullMatchVars | content/blog/playing-hard-mastermind-games-with-a-sat-based-ai/mastermind.py:151 | reference definition of the round's fresh `fm` variables; what the `PbEq` over them counts is `FullMatchVarsCount` |
| Encoding.FullMatchVarsCount | content/blog/playing-hard-mastermind-games-with-a-sat-based-ai/mastermind.py:160-161 | the `PbEq` sum over `fm` is the number of positions whose `fm` variable a model makes true |
| Encoding.NotClaimedAbove | content/blog/playing-hard-mastermind-games-with-a-sat-based-ai/mastermind.py:175 | reference definition of the first `extend`: `Not(sm[prev][secret_pos])` for each earlier guess position `prev` other than `secret_pos`; its meaning is `EncodingSemantics.NotClaimedAboveHolds` |
| Encoding.NotMatchedLeft | content/blog/playing-hard-mastermind-games-with-a-sat-based-ai/mastermind.py:177 | reference definition of the second `extend`: `Not(sm[guess_pos][prev])` for each earlier secret position `prev` other than `guess_pos`; its meaning is `EncodingSemantics.NotMatchedLeftHolds` |
| Encoding.MatchExpr | content/blog/playing-hard-mastermind-games-with-a-sat-based-ai/mastermind.py:169-180 | reference definition of one entry of `match_exprs`, `And(lhs) == sm[guess_pos][secret_pos]`; its meaning is `EncodingSemantics.MatchExprHolds` |
| Encoding.MatchExprs | content/blog/playing-hard-mastermind-games-with-a-sat-based-ai/mastermind.py:164-180 | reference definition of `match_exprs` for one guess position, skipping the diagonal; its meaning is `EncodingSemantics.MatchExprsHold` |
| Encoding.MatchRows | content/blog/playing-hard-mastermind-games-with-a-sat-based-ai/mastermind.py:163-181 | reference definition of the rows added by the "possible symbol matches" loop (its ensures lists them for the proofs); their meaning is `EncodingSemantics.MatchRowsHold` |
| Encoding.RowVars | content/blog/playing-hard-mastermind-games-with-a-sat-based-ai/mastermind.py:184-185 | the off-diagonal `sm` variables of one guess position |
| Encoding.SymbolMatchVars | content/blog/playing-hard-mastermind-games-with-a-sat-based-ai/mastermind.py:184-185 | reference definition of `sm_coeffs`: the off-diagonal `sm` variables in `permutations(range(N), 2)` order; what the `PbEq` over them counts is `EncodingSemantics.SymbolMatchCount` |
| Encoding.RoundConstraints | content/blog/playing-hard-mastermind-games-with-a-sat-based-ai/mastermind.py:155-186 | reference definition of everything one `make_guess` call adds, in its order; its meaning is `EncodingSemantics.RoundSound` and `EncodingSemantics.RoundComplete` |
| Encoding.History | content/blog/playing-hard-mastermind-games-with-a-sat-based-ai/mastermind.py:149-188 | reference definition of the constraints of all recorded rounds, one `make_guess` call each |
| Encoding.Store | content/blog/playing-hard-mastermind-games-with-a-sat-based-ai/mastermind.py:120-188 | reference definition of the solver store: the constructor's constraints followed by the history; its meaning is `EncodingSemantics.SatisfiableIffConsistentCode` |
| Encoding.HistoryKeepsPrefix | content/blog/playing-hard-mastermind-games-with-a-sat-based-ai/mastermind.py:149-188 | recording a round leaves the constraints of earlier rounds unchanged |
| Encoding.StoreAppend | content/blog/playing-hard-mastermind-games-with-a-sat-based-ai/mastermind.py:149-188 | each `make_guess` only appends: the store for a longer history is the old store followed by the new round's constraints |
| Encoding.HistoryRounds | content/blog/playing-hard-mastermind-games-with-a-sat-based-ai/mastermind.py:149-188 | the accumulated rounds hold exactly when each round's constraints hold |
| Encoding.StoreParts | content/blog/playing-hard-mastermind-games-with-a-sat-based-ai/mastermind.py:120-188 | the store holds exactly when the exactly-one constraints and every round hold |
| EncodingSemantics.TrueSymbols | content/blog/playing-hard-mastermind-games-with-a-sat-based-ai/mastermind.py:139-143 | reference definition of what the inner decoding loop appends for one position: every symbol whose variable is true, in order |
| EncodingSemantics.Decode | content/blog/playing-hard-mastermind-games-with-a-sat-based-ai/mastermind.py:138-143 | reference definition of the decoded guess: the true symbols of each position, position by position; `ExactlyOneDecodes` and `StoreSound` state what it yields |
| EncodingSemantics.TrueSymbolsCount | content/blog/playing-hard-mastermind-games-with-a-sat-based-ai/mastermind.py:139-143 | the inner decoding loop appends one symbol per true variable, and exactly the true ones |
| EncodingSemantics.SingleSymbol | content/blog/playing-hard-mastermind-games-with-a-sat-based-ai/mastermind.py:128-143 | under the exactly-one constraint a position decodes to one symbol, the only true variable |
| EncodingSemantics.ExactlyOneDecodes | content/blog/playing-hard-mastermind-games-with-a-sat-based-ai/mastermind.py:128-144 | every assignment satisfying the exactly-one constraints decodes to a length-`N` code over `0 .. K-1` that it encodes (the assertion at line 144) |
| EncodingSemantics.FullMatchLinksHold | content/blog/playing-hard-mastermind-games-with-a-sat-based-ai/mastermind.py:155-157 | given the secret, the links hold exactly when `fm_pos` is true iff `s[pos] == last_guess[pos]` |
| EncodingSemantics.FullMatchCountPrefix | content/blog/playing-hard-mastermind-games-with-a-sat-based-ai/mastermind.py:159-161 | the true `fm` variables are the agreeing positions |
| EncodingSemantics.FullMatchCount | content/blog/playing-hard-mastermind-games-with-a-sat-based-ai/mastermind.py:159-161 | the `fm` sum constrained by `PbEq` is `eval_guess`'s `full_matches` |
| EncodingSemantics.NotClaimedAboveHolds | content/blog/playing-hard-mastermind-games-with-a-sat-based-ai/mastermind.py:174-175 | the first `extend` says no earlier guess position matched this secret position |
| EncodingSemantics.NotMatchedLeftHolds | content/blog/playing-hard-mastermind-games-with-a-sat-based-ai/mastermind.py:176-177 | the second `extend` says this guess position matched no earlier secret position |
| EncodingSemantics.MatchExprHolds | content/blog/playing-hard-mastermind-games-with-a-sat-based-ai/mastermind.py:169-180 | one biconditional holds exactly when `sm_i_j` equals its match condition |
| EncodingSemantics.MatchExprsHold | content/blog/playing-hard-mastermind-games-with-a-sat-based-ai/mastermind.py:164-180 | a row holds exactly when each of its off-diagonal biconditionals holds |
| EncodingSemantics.MatchRowsHold | content/blog/playing-hard-mastermind-games-with-a-sat-based-ai/mastermind.py:163-181 | all rows hold exactly when every off-diagonal `sm_i_j` equals its match condition |
| EncodingSemantics.MatchConditionIsPick | content/blog/playing-hard-mastermind-games-with-a-sat-based-ai/mastermind.py:169-177 | once earlier entries agree with the greedy matching, the match condition of `(i, j)` is "guess position `i` picks secret position `j`" |
| EncodingSemantics.MatchesForced | content/blog/playing-hard-mastermind-games-with-a-sat-based-ai/mastermind.py:163-181 | the biconditionals are well-founded and force every `sm_i_j` to the greedy matching |
| EncodingSemantics.GreedySatisfiesRows | content/blog/playing-hard-mastermind-games-with-a-sat-based-ai/mastermind.py:163-181 | setting `sm` to the greedy matching satisfies every biconditional |
| EncodingSemantics.RowCount | content/blog/playing-hard-mastermind-games-with-a-sat-based-ai/mastermind.py:183-186 | under the greedy matching, a row has one true `sm` exactly when that guess position is matched |
| EncodingSemantics.SymbolMatchVarsCount | content/blog/playing-hard-mastermind-games-with-a-sat-based-ai/mastermind.py:183-186 | the `sm` sum over the first rows is the number of those rows that are matched |
| EncodingSemantics.SymbolMatchCount | content/blog/playing-hard-mastermind-games-with-a-sat-based-ai/mastermind.py:183-186 | the `sm` sum constrained by `PbEq` is `eval_guess`'s `symbol_matches` |
| EncodingSemantics.RoundParts | content/blog/playing-hard-mastermind-games-with-a-sat-based-ai/mastermind.py:155-186 | one round holds exactly when its links, its `fm` count, its rows and its `sm` count hold |
| EncodingSemantics.RoundSound | content/blog/playing-hard-mastermind-games-with-a-sat-based-ai/mastermind.py:149-186 | any assignment satisfying a round makes the secret it encodes consistent with that round |
| EncodingSemantics.RoundComplete | content/blog/playing-hard-mastermind-games-with-a-sat-based-ai/mastermind.py:149-186 | a consistent secret, with `fm` and `sm` set to its full matches and greedy matching, satisfies the round |
| EncodingSemantics.EncodedUnique | content/blog/playing-hard-mastermind-games-with-a-sat-based-ai/mastermind.py:124-131 | an assignment encodes at most one well-formed code |
| EncodingSemantics.DecodeEncoded | content/blog/playing-hard-mastermind-games-with-a-sat-based-ai/mastermind.py:128-143 | an assignment that encodes a code satisfies the exactly-one constraints and decodes back to that code |
| EncodingSemantics.StoreSound | content/blog/playing-hard-mastermind-games-with-a-sat-based-ai/mastermind.py:133-146 | every model of the store decodes to a well-formed code consistent with the whole history |
| EncodingSemantics.StoreComplete | content/blog/playing-hard-mastermind-games-with-a-sat-based-ai/mastermind.py:120-188 | every well-formed code consistent with the history extends to a model of the store that decodes back to it |
| EncodingSemantics.SatisfiableIffConsistentCode | content/blog/playing-hard-mastermind-games-with-a-sat-based-ai/mastermind.py:133-137 | `check()` can find a model exactly when some well-formed code is consistent with the history |
| EncodingSemantics.GenuineGameSatisfiable | content/blog/playing-hard-mastermind-games-with-a-sat-based-ai/mastermind.py:57-67 | feedback produced by a real secret never makes the store unsatisfiable |
| SymbolicStrategy.SymbolicConsistentAi.constructor | content/blog/playing-hard-mastermind-games-with-a-sat-based-ai/mastermind.py:120-131 | the nested loops leave exactly the exactly-one constraint of every position in the store |
| SymbolicStrategy.SymbolicConsistentAi.InitialGuess | content/blog/playing-hard-mastermind-games-with-a-sat-based-ai/mastermind.py:133-147 | the guess decoded from any model is a well-formed code, consistent with the whole history, and different from every earlier non-winning guess |
| SymbolicStrategy.SymbolicConsistentAi.ReadGuess | content/blog/playing-hard-mastermind-games-with-a-sat-based-ai/mastermind.py:138-143 | the nested decoding loops produce `Decode` of the model |
| SymbolicStrategy.SymbolicConsistentAi.MakeGuess | content/blog/playing-hard-mastermind-games-with-a-sat-based-ai/mastermind.py:149-188 | the store grows by exactly this round's constraints; the next guess is consistent with the extended history and differs from the last guess unless it won |
| SymbolicStrategy.SymbolicConsistentAi.AddRoundConstraints | content/blog/playing-hard-mastermind-games-with-a-sat-based-ai/mastermind.py:155-186 | the four groups of formulas are appended in the source's order: links, `fm` count, rows, `sm` count |
| SymbolicStrategy.SymbolicConsistentAi.AddFullMatchLinks | content/blog/playing-hard-mastermind-games-with-a-sat-based-ai/mastermind.py:155-157 | the loop appends exactly the full-match links |
| SymbolicStrategy.SymbolicConsistentAi.AddMatchRows | content/blog/playing-hard-mastermind-games-with-a-sat-based-ai/mastermind.py:163-181 | the outer loop appends exactly one row per guess position |
| SymbolicStrategy.SymbolicConsistentAi.MatchExprsOf | content/blog/playing-hard-mastermind-games-with-a-sat-based-ai/mastermind.py:164-180 | the inner loop, skipping the diagonal, builds exactly the row's biconditionals |

## Left out

- The z3 library is not modelled: `SolverFor`, `check`, `model`, `eval`, `is_true` and the
  translation of `PbEq` to SAT.
  - The solver is its assertion store, a sequence of formulas.
  - Asking for a model is a nondeterministic choice of any assignment that satisfies the store.
  - `PbEq` with unit coefficients is a count of true variables.
- `FreshBool` naming is not modelled. The fresh `fm` and `sm` variables of each `make_guess`
  call are told apart by a round index, which stands for the distinct fresh names.
- SymbolicStrategy.SymbolicConsistentAi.InitialGuess: requires the history to admit a
  consistent code. This is exactly what makes the store satisfiable (`SatisfiableIffConsistentCode`).
  The unsatisfiable path is not modelled: the result of `check()` is ignored, and `model()`
  would raise. Genuine feedback never reaches that path (`GenuineGameSatisfiable`).
- SymbolicStrategy.SymbolicConsistentAi.MakeGuess: carries the same precondition, for the
  history extended by the current round.
- The `IndexError` of `ExplicitConsistentAi.initial_guess` on an empty candidate list is the
  result `None`.
- The `StopIteration` of the lazy generator is the result `None`.
- The `ValueError` of `list.remove` is the result `None` of `ListRemove`.
- The lazy generator is a cursor into the enumeration. The generator's closure over the
  mutable `guesses` and `feedbacks` lists becomes `Next` reading the current fields.
- `Game.run` and `main` are left out: printing, the random secret from `randint`, and
  wall-clock timing. `PlayInLockstep` drives the two explicit players with a given feedback
  stream. The game loop's win test and its genuine feedback appear only as hypotheses of
  `WinIffEqual`, `SecretRemainsCandidate` and `GenuineGameSatisfiable`.
- The abstract `Player` base class is left out. It only raises `NotImplementedError`.
- Tuples and lists are both sequences. Guesses compare by value, as Python's tuple equality does.
- Time and memory behaviour are left out: materialising `K^N` candidates, and the solver growing
  each round.
