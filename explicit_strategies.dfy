/**
 * The two enumeration-based players: `ExplicitConsistentAi`, which materialises the
 * candidate list and filters it each round, and `LazyExplicitConsistentAi`, which pulls
 * from a generator over the enumeration filtered against the history at pull time.
 */
module ExplicitStrategies {
  import opened Wrappers
  import opened FeedbackOracle
  import opened Consistency
  import opened Enumeration

  /** A code is still open when it is consistent with the history and has not been played yet. */
  predicate Fresh(c: seq<int>, guesses: seq<seq<int>>, feedbacks: seq<Feedback>)
  {
    ConsistentWithHistory(c, guesses, feedbacks) && c !in guesses
  }

  /** Index of the first open code of `codes` at or after `from`. */
  function FirstFreshFrom(codes: seq<seq<int>>, guesses: seq<seq<int>>, feedbacks: seq<Feedback>, from: nat): (r: Option<nat>)
    requires from <= |codes|
    ensures r.Some? ==> from <= r.value < |codes| && Fresh(codes[r.value], guesses, feedbacks)
    ensures r.Some? ==> forall j | from <= j < r.value :: !Fresh(codes[j], guesses, feedbacks)
    ensures r.None? ==> forall j | from <= j < |codes| :: !Fresh(codes[j], guesses, feedbacks)
    decreases |codes| - from
  {
    if from == |codes| then None
    else if Fresh(codes[from], guesses, feedbacks) then Some(from)
    else FirstFreshFrom(codes, guesses, feedbacks, from + 1)
  }

  /** The guess both players make after a history: the first open code in enumeration order, if any. */
  function Proposal(codes: seq<seq<int>>, guesses: seq<seq<int>>, feedbacks: seq<Feedback>): (r: Option<seq<int>>)
    ensures r.Some? ==> r.value in codes && Fresh(r.value, guesses, feedbacks)
    ensures r.None? ==> forall c | c in codes :: !Fresh(c, guesses, feedbacks)
  {
    match FirstFreshFrom(codes, guesses, feedbacks, 0)
    case Some(j) => Some(codes[j])
    case None => None
  }

  /** Any index whose code is open while no earlier one is, is the one `Proposal` picks. */
  lemma ProposalIsFirstFresh(codes: seq<seq<int>>, guesses: seq<seq<int>>, feedbacks: seq<Feedback>, j: nat)
    requires j < |codes| && Fresh(codes[j], guesses, feedbacks)
    requires forall j' | 0 <= j' < j :: !Fresh(codes[j'], guesses, feedbacks)
    ensures Proposal(codes, guesses, feedbacks) == Some(codes[j])
  {
    var r := FirstFreshFrom(codes, guesses, feedbacks, 0);
    assert r == Some(j);
  }

  /** `c is an order-preserving sublist of `cs`. */
  predicate Sublist(c: seq<seq<int>>, cs: seq<seq<int>>)
  {
    if cs == [] then c == []
    else (c != [] && c[0] == cs[0] && Sublist(c[1..], cs[1..])) || Sublist(c, cs[1..])
  }

  /** The filter in `make_guess`: keep the candidates consistent with the last round that are not the last guess. */
  function Keep(cs: seq<seq<int>>, lastGuess: seq<int>, feedback: Feedback): (kept: seq<seq<int>>)
    ensures Sublist(kept, cs)
    ensures cs != [] && cs[0] == lastGuess ==> |kept| < |cs|
    ensures |kept| <= |cs|
  {
    if cs == [] then []
    else
      assert cs == [cs[0]] + cs[1..];
      var rest := Keep(cs[1..], lastGuess, feedback);
      if IsConsistent(cs[0], lastGuess, feedback) && cs[0] != lastGuess then
        assert ([cs[0]] + rest)[1..] == rest;
        [cs[0]] + rest
      else rest
  }

  /** A code survives the filter exactly when it was a candidate, fits the round and is not the last guess. */
  lemma {:induction false} KeepMembers(cs: seq<seq<int>>, lastGuess: seq<int>, feedback: Feedback, c: seq<int>)
    ensures c in Keep(cs, lastGuess, feedback) <==> c in cs && IsConsistent(c, lastGuess, feedback) && c != lastGuess
  {
    if cs != [] {
      KeepMembers(cs[1..], lastGuess, feedback, c);
      assert cs == [cs[0]] + cs[1..];
    }
  }

  /** The candidate list after a history: the full enumeration, filtered once per recorded round. */
  function Candidates(codes: seq<seq<int>>, guesses: seq<seq<int>>, feedbacks: seq<Feedback>): seq<seq<int>>
    requires |guesses| == |feedbacks|
  {
    if guesses == [] then codes
    else
      var m := |guesses| - 1;
      Keep(Candidates(codes, guesses[..m], feedbacks[..m]), guesses[m], feedbacks[m])
  }

  /** The open codes of `codes`, in order. */
  function FreshCodes(codes: seq<seq<int>>, guesses: seq<seq<int>>, feedbacks: seq<Feedback>): seq<seq<int>>
  {
    if codes == [] then []
    else (if Fresh(codes[0], guesses, feedbacks) then [codes[0]] else []) + FreshCodes(codes[1..], guesses, feedbacks)
  }

  /** A code stays open after one more round exactly when it was open, fits that round and is not its guess. */
  lemma FreshAppend(c: seq<int>, guesses: seq<seq<int>>, feedbacks: seq<Feedback>, g: seq<int>, f: Feedback)
    requires |guesses| == |feedbacks|
    ensures Fresh(c, guesses + [g], feedbacks + [f]) <==> Fresh(c, guesses, feedbacks) && IsConsistent(c, g, f) && c != g
  {
    HistoryAppend(c, guesses, feedbacks, g, f);
  }

  lemma {:induction false} KeepFreshCodes(codes: seq<seq<int>>, guesses: seq<seq<int>>, feedbacks: seq<Feedback>, g: seq<int>, f: Feedback)
    requires |guesses| == |feedbacks|
    ensures Keep(FreshCodes(codes, guesses, feedbacks), g, f) == FreshCodes(codes, guesses + [g], feedbacks + [f])
  {
    if codes != [] {
      var c := codes[0];
      KeepFreshCodes(codes[1..], guesses, feedbacks, g, f);
      FreshAppend(c, guesses, feedbacks, g, f);
      var tail := FreshCodes(codes[1..], guesses, feedbacks);
      var head := if Fresh(c, guesses + [g], feedbacks + [f]) then [c] else [];
      assert FreshCodes(codes, guesses + [g], feedbacks + [f]) == head + FreshCodes(codes[1..], guesses + [g], feedbacks + [f]);
      if Fresh(c, guesses, feedbacks) {
        var cs := [c] + tail;
        assert FreshCodes(codes, guesses, feedbacks) == cs;
        assert cs[0] == c && cs[1..] == tail;
        assert Keep(cs, g, f) == head + Keep(tail, g, f);
      } else {
        assert FreshCodes(codes, guesses, feedbacks) == tail;
        assert head == [];
      }
    }
  }

  /** The materialised candidate list holds exactly the open codes, in enumeration order. */
  lemma {:induction false} CandidatesAreFreshCodes(codes: seq<seq<int>>, guesses: seq<seq<int>>, feedbacks: seq<Feedback>)
    requires |guesses| == |feedbacks|
    ensures Candidates(codes, guesses, feedbacks) == FreshCodes(codes, guesses, feedbacks)
    decreases |guesses|
  {
    if guesses == [] {
      FreshCodesNoHistory(codes);
    } else {
      var m := |guesses| - 1;
      var gs, fs, g, f := guesses[..m], feedbacks[..m], guesses[m], feedbacks[m];
      SplitLast(guesses);
      SplitLast(feedbacks);
      CandidatesAreFreshCodes(codes, gs, fs);
      KeepFreshCodes(codes, gs, fs, g, f);
      assert Candidates(codes, guesses, feedbacks) == Keep(Candidates(codes, gs, fs), g, f);
    }
  }

  lemma {:induction false} FreshCodesNoHistory(codes: seq<seq<int>>)
    ensures FreshCodes(codes, [], []) == codes
  {
    if codes != [] {
      FreshCodesNoHistory(codes[1..]);
      assert codes == [codes[0]] + codes[1..];
    }
  }

  /** The head of the open codes from `from` on is the code `FirstFreshFrom` finds. */
  lemma {:induction false} FreshCodesHead(codes: seq<seq<int>>, guesses: seq<seq<int>>, feedbacks: seq<Feedback>, from: nat)
    requires from <= |codes|
    ensures FirstFreshFrom(codes, guesses, feedbacks, from).None? <==> FreshCodes(codes[from..], guesses, feedbacks) == []
    ensures FirstFreshFrom(codes, guesses, feedbacks, from).Some? ==>
      FreshCodes(codes[from..], guesses, feedbacks)[0] == codes[FirstFreshFrom(codes, guesses, feedbacks, from).value]
    decreases |codes| - from
  {
    if from < |codes| {
      FreshCodesHead(codes, guesses, feedbacks, from + 1);
      var rest := codes[from..];
      assert rest[0] == codes[from] && rest[1..] == codes[from + 1..];
      if Fresh(codes[from], guesses, feedbacks) {
        assert FreshCodes(rest, guesses, feedbacks) == [codes[from]] + FreshCodes(codes[from + 1..], guesses, feedbacks);
      } else {
        assert FreshCodes(rest, guesses, feedbacks) == FreshCodes(codes[from + 1..], guesses, feedbacks);
      }
    }
  }

  /** `ExplicitConsistentAi` always proposes the head of its candidate list, which is `Proposal`. */
  lemma CandidatesHeadIsProposal(codes: seq<seq<int>>, guesses: seq<seq<int>>, feedbacks: seq<Feedback>)
    requires |guesses| == |feedbacks|
    ensures Proposal(codes, guesses, feedbacks) == (if Candidates(codes, guesses, feedbacks) == [] then None else Some(Candidates(codes, guesses, feedbacks)[0]))
  {
    CandidatesAreFreshCodes(codes, guesses, feedbacks);
    FreshCodesHead(codes, guesses, feedbacks, 0);
    assert codes[0..] == codes;
  }

  lemma {:induction false} FreshCodesMembers(codes: seq<seq<int>>, guesses: seq<seq<int>>, feedbacks: seq<Feedback>, c: seq<int>)
    ensures c in FreshCodes(codes, guesses, feedbacks) <==> c in codes && Fresh(c, guesses, feedbacks)
  {
    if codes != [] {
      FreshCodesMembers(codes[1..], guesses, feedbacks, c);
      assert codes == [codes[0]] + codes[1..];
    }
  }

  /** A code is a candidate exactly when it is well-formed, consistent with the history and not yet played. */
  lemma CandidateMembers(n: nat, k: nat, guesses: seq<seq<int>>, feedbacks: seq<Feedback>, c: seq<int>)
    requires |guesses| == |feedbacks|
    ensures c in Candidates(Enumerate(n, k), guesses, feedbacks) <==>
      WellFormed(c, n, k) && ConsistentWithHistory(c, guesses, feedbacks) && c !in guesses
  {
    CandidatesAreFreshCodes(Enumerate(n, k), guesses, feedbacks);
    FreshCodesMembers(Enumerate(n, k), guesses, feedbacks, c);
    EnumerationComplete(c, n, k);
  }

  /** Against genuine feedback with no win yet, the true secret is never filtered out. */
  lemma SecretRemainsCandidate(n: nat, k: nat, secret: seq<int>, guesses: seq<seq<int>>, feedbacks: seq<Feedback>)
    requires WellFormed(secret, n, k) && |guesses| == |feedbacks|
    requires forall r | 0 <= r < |guesses| :: feedbacks[r] == Evaluate(secret, guesses[r])
    requires forall r | 0 <= r < |feedbacks| :: feedbacks[r].fullMatches != n
    ensures secret in Candidates(Enumerate(n, k), guesses, feedbacks)
  {
    GenuineHistoryConsistent(secret, guesses, feedbacks);
    forall r | 0 <= r < |guesses| ensures secret != guesses[r] {
      if |guesses[r]| == n {
        ConsistentAvoidsLosingGuesses(secret, guesses, feedbacks, r);
      }
    }
    CandidateMembers(n, k, guesses, feedbacks, secret);
  }

  /** Every code before `upTo` has been played or is ruled out by the history. */
  predicate Settled(codes: seq<seq<int>>, guesses: seq<seq<int>>, feedbacks: seq<Feedback>, upTo: nat)
  {
    && upTo <= |codes|
    && forall j | 0 <= j < upTo :: codes[j] in guesses || !ConsistentWithHistory(codes[j], guesses, feedbacks)
  }

  /** If everything before `j` is settled and `codes[j]` is open, then `codes[j]` is the proposal. */
  lemma SettledThenProposal(codes: seq<seq<int>>, guesses: seq<seq<int>>, feedbacks: seq<Feedback>, j: nat)
    requires j < |codes| && Settled(codes, guesses, feedbacks, j) && Fresh(codes[j], guesses, feedbacks)
    ensures Proposal(codes, guesses, feedbacks) == Some(codes[j])
  {
    forall j' | 0 <= j' < j ensures !Fresh(codes[j'], guesses, feedbacks) {
    }
    ProposalIsFirstFresh(codes, guesses, feedbacks, j);
  }

  /** If the whole enumeration is settled, there is no proposal. */
  lemma SettledThenNoProposal(codes: seq<seq<int>>, guesses: seq<seq<int>>, feedbacks: seq<Feedback>)
    requires Settled(codes, guesses, feedbacks, |codes|)
    ensures Proposal(codes, guesses, feedbacks) == None
  {
    var r := FirstFreshFrom(codes, guesses, feedbacks, 0);
    if r.Some? {
      assert false;
    }
  }

  /** Playing the code at `upTo` settles it, and playing more never unsettles an earlier code. */
  lemma SettledAfterGuess(codes: seq<seq<int>>, guesses: seq<seq<int>>, feedbacks: seq<Feedback>, upTo: nat)
    requires upTo < |codes| && Settled(codes, guesses, feedbacks, upTo)
    ensures Settled(codes, guesses + [codes[upTo]], feedbacks, upTo + 1)
  {
    var played := guesses + [codes[upTo]];
    forall j | 0 <= j < upTo + 1 ensures codes[j] in played || !ConsistentWithHistory(codes[j], played, feedbacks) {
      if j < upTo && codes[j] !in guesses && ConsistentWithHistory(codes[j], played, feedbacks) {
        assert false;
      }
    }
  }

  /** More feedback never unsettles a code. */
  lemma SettledAfterFeedback(codes: seq<seq<int>>, guesses: seq<seq<int>>, feedbacks: seq<Feedback>, upTo: nat, f: Feedback)
    requires Settled(codes, guesses, feedbacks, upTo)
    ensures Settled(codes, guesses, feedbacks + [f], upTo)
  {
    forall j | 0 <= j < upTo ensures codes[j] in guesses || !ConsistentWithHistory(codes[j], guesses, feedbacks + [f]) {
      if codes[j] !in guesses && ConsistentWithHistory(codes[j], guesses, feedbacks + [f]) {
        assert false;
      }
    }
  }

  /** `yielded[r]` is the enumeration index of `guesses[r]`, and all of them lie before `bound`. */
  predicate PlayedBefore(codes: seq<seq<int>>, guesses: seq<seq<int>>, yielded: seq<nat>, bound: nat)
  {
    && bound <= |codes|
    && |yielded| == |guesses|
    && forall r | 0 <= r < |guesses| :: yielded[r] < bound && guesses[r] == codes[yielded[r]]
  }

  /** Playing the code at `j` records its index, and every index played so far lies before `j + 1`. */
  lemma PlayedAfterGuess(codes: seq<seq<int>>, guesses: seq<seq<int>>, yielded: seq<nat>, bound: nat, j: nat)
    requires PlayedBefore(codes, guesses, yielded, bound) && bound <= j < |codes|
    ensures PlayedBefore(codes, guesses + [codes[j]], yielded + [j], j + 1)
  {
    var gs, ys := guesses + [codes[j]], yielded + [j];
    forall r | 0 <= r < |gs| ensures ys[r] < j + 1 && gs[r] == codes[ys[r]] {
      if r < |guesses| {
        assert gs[r] == guesses[r] && ys[r] == yielded[r];
      }
    }
  }

  /** In a list without repetitions, a code at or after `bound` has not been played. */
  lemma NotYetPlayed(codes: seq<seq<int>>, guesses: seq<seq<int>>, yielded: seq<nat>, bound: nat, j: nat)
    requires Distinct(codes) && PlayedBefore(codes, guesses, yielded, bound) && bound <= j < |codes|
    ensures codes[j] !in guesses
  {
    forall r | 0 <= r < |guesses| ensures guesses[r] != codes[j] {
      assert yielded[r] < j;
    }
  }

  /** `ExplicitConsistentAi`: the materialised candidate list, filtered in place each round. */
  class ExplicitConsistentAi {
    const n: nat
    const k: nat
    /** `product(range(k), repeat=n)`, in its own order. */
    const codes: seq<seq<int>>
    var lastGuess: Option<seq<int>>
    var candidates: seq<seq<int>>
    /** The rounds whose feedback has been recorded. */
    ghost var guesses: seq<seq<int>>
    ghost var feedbacks: seq<Feedback>

    /** The candidate list is the enumeration filtered by every recorded round. */
    ghost predicate Tracked()
      reads this
    {
      && |guesses| == |feedbacks|
      && candidates == Candidates(codes, guesses, feedbacks)
    }

    ghost predicate Valid()
      reads this
    {
      && Tracked()
      && (lastGuess.Some? && candidates != [] ==> lastGuess.value == candidates[0])
    }

    constructor (n: nat, k: nat)
      ensures Valid() && this.n == n && this.k == k && codes == Enumerate(n, k)
      ensures lastGuess == None && candidates == codes && guesses == [] && feedbacks == []
    {
      this.n, this.k := n, k;
      codes := Enumerate(n, k);
      lastGuess := None;
      candidates := Enumerate(n, k);
      guesses, feedbacks := [], [];
    }

    /** `initial_guess`: the head of the candidate list; `None` stands for the IndexError on an empty list. */
    method InitialGuess() returns (guess: Option<seq<int>>)
      requires Tracked()
      modifies this`lastGuess
      ensures Valid()
      ensures guess == Proposal(codes, guesses, feedbacks)
      ensures guess.Some? ==> lastGuess == guess
      ensures guess.None? ==> lastGuess == old(lastGuess)
    {
      CandidatesHeadIsProposal(codes, guesses, feedbacks);
      if candidates == [] {
        return None;
      }
      lastGuess := Some(candidates[0]);
      guess := lastGuess;
    }

    /** `make_guess`: filter the candidates by the last round, then guess the new head. */
    method MakeGuess(feedback: Feedback) returns (guess: Option<seq<int>>)
      requires Valid() && lastGuess.Some?
      modifies this
      ensures Valid()
      ensures guesses == old(guesses) + [old(lastGuess).value] && feedbacks == old(feedbacks) + [feedback]
      ensures Sublist(candidates, old(candidates))
      ensures forall c :: c in candidates <==> c in old(candidates) && IsConsistent(c, old(lastGuess).value, feedback) && c != old(lastGuess).value
      ensures old(candidates) != [] ==> |candidates| < |old(candidates)|
      ensures guess == Proposal(codes, guesses, feedbacks)
      ensures guess.Some? ==> lastGuess == guess
      ensures guess.None? ==> lastGuess == old(lastGuess)
    {
      var played := lastGuess.value;
      forall c ensures c in Keep(candidates, played, feedback) <==> c in candidates && IsConsistent(c, played, feedback) && c != played {
        KeepMembers(candidates, played, feedback, c);
      }
      candidates := Keep(candidates, played, feedback);
      ghost var m := |guesses|;
      guesses, feedbacks := guesses + [played], feedbacks + [feedback];
      assert guesses[..m] == old(guesses) && feedbacks[..m] == old(feedbacks);
      guess := InitialGuess();
    }
  }

  /** `LazyExplicitConsistentAi`: a generator over the enumeration, filtered against the history lists at pull time. */
  class LazyExplicitConsistentAi {
    const n: nat
    const k: nat
    /** The sequence the `product(range(k), repeat=n)` generator walks through. */
    const codes: seq<seq<int>>
    var guesses: seq<seq<int>>
    var feedbacks: seq<Feedback>
    /** How far the generator has advanced through `codes`. */
    var cursor: nat
    /** Enumeration index of each yielded guess. */
    ghost var yielded: seq<nat>

    ghost predicate Valid()
      reads this
    {
      && Distinct(codes)
      && PlayedBefore(codes, guesses, yielded, cursor)
      && Settled(codes, guesses, feedbacks, cursor)
    }

    constructor (n: nat, k: nat)
      ensures Valid() && this.n == n && this.k == k && codes == Enumerate(n, k)
      ensures guesses == [] && feedbacks == [] && cursor == 0
    {
      this.n, this.k := n, k;
      codes := Enumerate(n, k);
      guesses, feedbacks := [], [];
      cursor := 0;
      yielded := [];
      EnumerationDistinct(n, k);
    }

    /** `next(self.candidates)`: advance to the next code consistent with the current history. */
    method Next() returns (c: Option<seq<int>>)
      requires Valid()
      modifies this`cursor
      ensures old(cursor) <= cursor <= |codes|
      ensures c.Some? ==> old(cursor) < cursor && c.value == codes[cursor - 1]
      ensures c.Some? ==> ConsistentWithHistory(c.value, guesses, feedbacks) && Settled(codes, guesses, feedbacks, cursor - 1)
      ensures c.None? ==> cursor == |codes| && Settled(codes, guesses, feedbacks, cursor)
    {
      while cursor < |codes|
        invariant old(cursor) <= cursor <= |codes|
        invariant Settled(codes, guesses, feedbacks, cursor)
      {
        var candidate := codes[cursor];
        var ok := IsConsistentWithHistory(candidate, guesses, feedbacks);
        cursor := cursor + 1;
        if ok {
          return Some(candidate);
        }
      }
      return None;
    }

    /** `initial_guess`: pull the next code and append it to the guesses; `None` stands for StopIteration. */
    method InitialGuess() returns (guess: Option<seq<int>>)
      requires Valid()
      modifies this
      ensures Valid()
      ensures feedbacks == old(feedbacks)
      ensures guess == Proposal(codes, old(guesses), feedbacks)
      ensures guess.Some? ==> guesses == old(guesses) + [guess.value]
      ensures guess.None? ==> guesses == old(guesses)
    {
      var c := Next();
      if c.None? {
        SettledThenNoProposal(codes, guesses, feedbacks);
        return None;
      }
      var j := cursor - 1;
      NotYetPlayed(codes, guesses, yielded, old(cursor), j);
      SettledThenProposal(codes, guesses, feedbacks, j);
      SettledAfterGuess(codes, guesses, feedbacks, j);
      PlayedAfterGuess(codes, guesses, yielded, old(cursor), j);
      guesses := guesses + [c.value];
      yielded := yielded + [j];
      guess := c;
    }

    /** `make_guess`: record the feedback, then pull the next code. */
    method MakeGuess(feedback: Feedback) returns (guess: Option<seq<int>>)
      requires Valid()
      modifies this
      ensures Valid()
      ensures feedbacks == old(feedbacks) + [feedback]
      ensures guess == Proposal(codes, old(guesses), feedbacks)
      ensures guess.Some? ==> guesses == old(guesses) + [guess.value]
      ensures guess.None? ==> guesses == old(guesses)
    {
      SettledAfterFeedback(codes, guesses, feedbacks, cursor, feedback);
      feedbacks := feedbacks + [feedback];
      guess := InitialGuess();
    }
  }

  /**
   * Drives both players with the same replies, one round at a time, until a player has no
   * guess left or the replies run out: the two produce the same guesses, each the first open
   * code for the history before it.
   */
  method PlayInLockstep(n: nat, k: nat, replies: seq<Feedback>) returns (explicitGuesses: seq<seq<int>>, lazyGuesses: seq<seq<int>>)
    ensures explicitGuesses == lazyGuesses
    ensures |explicitGuesses| <= |replies| + 1
    ensures forall t | 0 <= t < |explicitGuesses| ::
      Proposal(Enumerate(n, k), explicitGuesses[..t], replies[..t]) == Some(explicitGuesses[t])
    ensures |explicitGuesses| <= |replies| ==>
      Proposal(Enumerate(n, k), explicitGuesses, replies[..|explicitGuesses|]) == None
  {
    var explicitAi := new ExplicitConsistentAi(n, k);
    var lazyAi := new LazyExplicitConsistentAi(n, k);
    ghost var codes := explicitAi.codes;
    var g := explicitAi.InitialGuess();
    var h := lazyAi.InitialGuess();
    explicitGuesses, lazyGuesses := [], [];
    var t := 0;
    while g.Some? && t < |replies|
      invariant t <= |replies| && |explicitGuesses| == t
      invariant explicitAi.Valid() && lazyAi.Valid()
      invariant explicitAi.codes == codes && lazyAi.codes == codes
      invariant explicitAi.guesses == explicitGuesses && explicitAi.feedbacks == replies[..t]
      invariant lazyAi.feedbacks == replies[..t]
      invariant g == h && g == Proposal(codes, explicitGuesses, replies[..t])
      invariant g.Some? ==> explicitAi.lastGuess == g && lazyAi.guesses == explicitGuesses + [g.value]
      invariant explicitGuesses == lazyGuesses
      invariant forall u | 0 <= u < t :: Proposal(codes, explicitGuesses[..u], replies[..u]) == Some(explicitGuesses[u])
      decreases |replies| - t
    {
      ghost var before := explicitGuesses;
      explicitGuesses, lazyGuesses := explicitGuesses + [g.value], lazyGuesses + [h.value];
      PrefixesKept(before, g.value, replies, t, codes);
      g := explicitAi.MakeGuess(replies[t]);
      h := lazyAi.MakeGuess(replies[t]);
      TakeOneMore(replies, t);
      t := t + 1;
    }
    if g.Some? {
      ghost var before := explicitGuesses;
      explicitGuesses, lazyGuesses := explicitGuesses + [g.value], lazyGuesses + [h.value];
      PrefixesKept(before, g.value, replies, t, codes);
    }
  }

  lemma SplitLast<T>(xs: seq<T>)
    requires xs != []
    ensures xs == xs[..|xs| - 1] + [xs[|xs| - 1]]
  {
  }

  lemma TakeOneMore<T>(xs: seq<T>, t: nat)
    requires t < |xs|
    ensures xs[..t + 1] == xs[..t] + [xs[t]]
  {
  }

  /** Appending the guess proposed after `guesses` keeps every earlier guess the proposal for its prefix. */
  lemma PrefixesKept(guesses: seq<seq<int>>, g: seq<int>, replies: seq<Feedback>, t: nat, codes: seq<seq<int>>)
    requires |guesses| == t <= |replies|
    requires Proposal(codes, guesses, replies[..t]) == Some(g)
    requires forall u | 0 <= u < t :: Proposal(codes, guesses[..u], replies[..u]) == Some(guesses[u])
    ensures forall u | 0 <= u < t + 1 :: Proposal(codes, (guesses + [g])[..u], replies[..u]) == Some((guesses + [g])[u])
  {
    forall u | 0 <= u < t + 1 ensures Proposal(codes, (guesses + [g])[..u], replies[..u]) == Some((guesses + [g])[u]) {
      assert (guesses + [g])[..u] == guesses[..u];
      if u == t {
        assert guesses[..u] == guesses;
      }
    }
  }
}
