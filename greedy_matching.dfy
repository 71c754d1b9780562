/**
 * The matching that `eval_guess` builds implicitly, position by position: each guess
 * position that is not a full match takes the first secret position, not a full match and
 * not taken by an earlier guess position, that holds its symbol. This is the unique
 * assignment the `sm` biconditionals of `make_guess` admit, and its size is the
 * symbol-match count.
 */
module GreedyMatching {
  import opened Wrappers
  import opened ListOps
  import opened FeedbackOracle

  /** Secret position `j` is free to be matched with guess position `i`. */
  predicate Eligible(secret: seq<int>, guess: seq<int>, claimed: set<int>, i: nat, j: nat)
    requires |secret| == |guess| && i < |guess| && j < |secret|
  {
    j !in claimed && secret[j] != guess[j] && secret[j] == guess[i]
  }

  /** The first eligible secret position at or after `from`. */
  function FirstFree(secret: seq<int>, guess: seq<int>, claimed: set<int>, i: nat, from: nat): (r: Option<nat>)
    requires |secret| == |guess| && i < |guess| && from <= |secret|
    ensures r.Some? ==> from <= r.value < |secret| && Eligible(secret, guess, claimed, i, r.value)
    ensures r.Some? ==> forall j | from <= j < r.value :: !Eligible(secret, guess, claimed, i, j)
    ensures r.None? ==> forall j | from <= j < |secret| :: !Eligible(secret, guess, claimed, i, j)
    decreases |secret| - from
  {
    if from == |secret| then None
    else if Eligible(secret, guess, claimed, i, from) then Some(from)
    else FirstFree(secret, guess, claimed, i, from + 1)
  }

  /** The secret position guess position `i` takes, given the positions already `claimed`. */
  function PickAt(secret: seq<int>, guess: seq<int>, claimed: set<int>, i: nat): Option<nat>
    requires |secret| == |guess| && i < |guess|
  {
    if secret[i] == guess[i] then None else FirstFree(secret, guess, claimed, i, 0)
  }

  /** The secret positions taken by a sequence of picks. */
  function ClaimedBy(picks: seq<Option<nat>>): set<int>
  {
    if picks == [] then {}
    else
      var last := picks[|picks| - 1];
      ClaimedBy(picks[..|picks| - 1]) + (if last.Some? then {last.value as int} else {})
  }

  /** The picks of guess positions `0 .. u - 1`, made in order. */
  function Picks(secret: seq<int>, guess: seq<int>, u: nat): (picks: seq<Option<nat>>)
    requires |secret| == |guess| && u <= |guess|
    ensures |picks| == u
  {
    if u == 0 then []
    else
      var earlier := Picks(secret, guess, u - 1);
      earlier + [PickAt(secret, guess, ClaimedBy(earlier), u - 1)]
  }

  /** The secret positions taken by guess positions before `i`. */
  function Claimed(secret: seq<int>, guess: seq<int>, i: nat): set<int>
    requires |secret| == |guess| && i <= |guess|
  {
    ClaimedBy(Picks(secret, guess, i))
  }

  /** The secret position guess position `i` is matched with, if any. */
  function Pick(secret: seq<int>, guess: seq<int>, i: nat): (r: Option<nat>)
    requires |secret| == |guess| && i < |guess|
    ensures r.Some? ==> r.value < |secret| && r.value != i && r.value !in Claimed(secret, guess, i)
    ensures r.Some? ==> secret[i] != guess[i] && secret[r.value] != guess[r.value] && secret[r.value] == guess[i]
  {
    PickAt(secret, guess, Claimed(secret, guess, i), i)
  }

  /** Number of guess positions that were matched. */
  function MatchCount(picks: seq<Option<nat>>): (c: nat)
    ensures c <= |picks|
  {
    if picks == [] then 0
    else MatchCount(picks[..|picks| - 1]) + (if picks[|picks| - 1].Some? then 1 else 0)
  }

  /** The `i`-th pick does not depend on how many later positions are picked. */
  lemma {:induction false} PicksPrefix(secret: seq<int>, guess: seq<int>, u: nat, i: nat)
    requires |secret| == |guess| && i < u <= |guess|
    ensures Picks(secret, guess, u)[i] == Pick(secret, guess, i)
    ensures Picks(secret, guess, u)[..i] == Picks(secret, guess, i)
    decreases u
  {
    if i < u - 1 {
      PicksPrefix(secret, guess, u - 1, i);
      assert Picks(secret, guess, u)[..u - 1] == Picks(secret, guess, u - 1);
      assert Picks(secret, guess, u)[..i] == Picks(secret, guess, u - 1)[..i];
    } else {
      assert Picks(secret, guess, u)[..i] == Picks(secret, guess, i);
    }
  }

  lemma {:induction false} ClaimedByMembers(picks: seq<Option<nat>>, j: int)
    ensures j in ClaimedBy(picks) <==> exists t | 0 <= t < |picks| :: picks[t] == Some(j)
  {
    if picks != [] {
      var m := |picks| - 1;
      ClaimedByMembers(picks[..m], j);
      if j in ClaimedBy(picks[..m]) {
        var t :| 0 <= t < m && picks[..m][t] == Some(j);
        assert picks[t] == Some(j);
      }
      if exists t | 0 <= t < |picks| :: picks[t] == Some(j) {
        var t :| 0 <= t < |picks| && picks[t] == Some(j);
        if t < m {
          assert picks[..m][t] == Some(j);
        }
      }
    }
  }

  /** A secret position is claimed before guess position `i` exactly when an earlier position picked it. */
  lemma ClaimedMembers(secret: seq<int>, guess: seq<int>, i: nat, j: int)
    requires |secret| == |guess| && i <= |guess|
    ensures j in Claimed(secret, guess, i) <==> exists prev | 0 <= prev < i :: Pick(secret, guess, prev) == Some(j)
  {
    ClaimedByMembers(Picks(secret, guess, i), j);
    forall prev | 0 <= prev < i ensures Picks(secret, guess, i)[prev] == Pick(secret, guess, prev) {
      PicksPrefix(secret, guess, i, prev);
    }
  }

  /** No secret position is matched with two guess positions. */
  lemma PicksInjective(secret: seq<int>, guess: seq<int>, i: nat, i': nat)
    requires |secret| == |guess| && i < |guess| && i' < |guess|
    requires Pick(secret, guess, i).Some? && Pick(secret, guess, i) == Pick(secret, guess, i')
    ensures i == i'
  {
    var j := Pick(secret, guess, i).value;
    if i < i' {
      ClaimedMembers(secret, guess, i', j);
    } else if i' < i {
      ClaimedMembers(secret, guess, i, j);
    }
  }

  /** Excluding a position before `from` does not change what remains from `from` on. */
  lemma {:induction false} UnmatchedExcludeBefore(x: seq<int>, y: seq<int>, excluded: set<int>, q: int, from: nat)
    requires from <= Min(|x|, |y|) && q < from
    ensures Unmatched(x, y, excluded + {q}, from) == Unmatched(x, y, excluded, from)
    decreases |x| - from
  {
    if from < Min(|x|, |y|) {
      UnmatchedExcludeBefore(x, y, excluded, q, from + 1);
      UnmatchedStep(x, y, excluded + {q}, from);
      UnmatchedStep(x, y, excluded, from);
      assert (from in excluded + {q}) == (from in excluded);
    }
  }

  /**
   * Searching the free secret positions is removing the guess symbol from the remaining
   * secret symbols: it fails exactly when the symbol is not there, and otherwise it removes
   * the symbol's first occurrence, which is the one at the found position.
   */
  lemma {:induction false} FirstFreeRemoves(secret: seq<int>, guess: seq<int>, claimed: set<int>, i: nat, from: nat)
    requires |secret| == |guess| && i < |guess| && from <= |secret|
    ensures FirstFree(secret, guess, claimed, i, from).None? <==> guess[i] !in Unmatched(secret, guess, claimed, from)
    ensures FirstFree(secret, guess, claimed, i, from).Some? ==>
      ListRemove(Unmatched(secret, guess, claimed, from), guess[i])
        == Some(Unmatched(secret, guess, claimed + {FirstFree(secret, guess, claimed, i, from).value}, from))
    decreases |secret| - from
  {
    if from < |secret| {
      FirstFreeRemoves(secret, guess, claimed, i, from + 1);
      if secret[from] != guess[from] && from !in claimed && secret[from] == guess[i] {
        TakeHere(secret, guess, claimed, i, from);
      } else {
        SkipHere(secret, guess, claimed, i, from);
      }
    }
  }

  /** The case of `FirstFreeRemoves` where the position `from` itself is taken. */
  lemma TakeHere(secret: seq<int>, guess: seq<int>, claimed: set<int>, i: nat, from: nat)
    requires |secret| == |guess| && i < |guess| && from < |secret|
    requires secret[from] != guess[from] && from !in claimed && secret[from] == guess[i]
    ensures FirstFree(secret, guess, claimed, i, from) == Some(from)
    ensures guess[i] in Unmatched(secret, guess, claimed, from)
    ensures ListRemove(Unmatched(secret, guess, claimed, from), guess[i]) == Some(Unmatched(secret, guess, claimed + {from}, from))
  {
    var rest := Unmatched(secret, guess, claimed, from + 1);
    UnmatchedStep(secret, guess, claimed, from);
    assert Unmatched(secret, guess, claimed, from) == [secret[from]] + rest;
    ListRemoveHead(secret[from], rest);
    UnmatchedStep(secret, guess, claimed + {from}, from);
    assert Unmatched(secret, guess, claimed + {from}, from) == [] + Unmatched(secret, guess, claimed + {from}, from + 1);
    UnmatchedExcludeBefore(secret, guess, claimed, from, from + 1);
  }

  lemma UnmatchedStep(x: seq<int>, y: seq<int>, excluded: set<int>, from: nat)
    requires from < Min(|x|, |y|)
    ensures Unmatched(x, y, excluded, from)
      == (if x[from] != y[from] && from !in excluded then [x[from]] else []) + Unmatched(x, y, excluded, from + 1)
  {
  }

  /** The case of `FirstFreeRemoves` where the search moves past position `from`. */
  lemma SkipHere(secret: seq<int>, guess: seq<int>, claimed: set<int>, i: nat, from: nat)
    requires |secret| == |guess| && i < |guess| && from < |secret|
    requires !(secret[from] != guess[from] && from !in claimed && secret[from] == guess[i])
    requires FirstFree(secret, guess, claimed, i, from + 1).None? <==> guess[i] !in Unmatched(secret, guess, claimed, from + 1)
    requires FirstFree(secret, guess, claimed, i, from + 1).Some? ==>
      ListRemove(Unmatched(secret, guess, claimed, from + 1), guess[i])
        == Some(Unmatched(secret, guess, claimed + {FirstFree(secret, guess, claimed, i, from + 1).value}, from + 1))
    ensures FirstFree(secret, guess, claimed, i, from) == FirstFree(secret, guess, claimed, i, from + 1)
    ensures FirstFree(secret, guess, claimed, i, from).None? <==> guess[i] !in Unmatched(secret, guess, claimed, from)
    ensures FirstFree(secret, guess, claimed, i, from).Some? ==>
      ListRemove(Unmatched(secret, guess, claimed, from), guess[i])
        == Some(Unmatched(secret, guess, claimed + {FirstFree(secret, guess, claimed, i, from).value}, from))
  {
    if secret[from] != guess[from] && from !in claimed {
      SkipKept(secret, guess, claimed, i, from);
    } else {
      SkipAbsent(secret, guess, claimed, i, from);
    }
  }

  /** Position `from` keeps its symbol in the remainder, but the symbol differs from `guess[i]`. */
  lemma SkipKept(secret: seq<int>, guess: seq<int>, claimed: set<int>, i: nat, from: nat)
    requires |secret| == |guess| && i < |guess| && from < |secret|
    requires secret[from] != guess[from] && from !in claimed && secret[from] != guess[i]
    ensures Unmatched(secret, guess, claimed, from) == [secret[from]] + Unmatched(secret, guess, claimed, from + 1)
    ensures forall j | from < j < |secret| ::
      Unmatched(secret, guess, claimed + {j}, from) == [secret[from]] + Unmatched(secret, guess, claimed + {j}, from + 1)
    ensures FirstFree(secret, guess, claimed, i, from) == FirstFree(secret, guess, claimed, i, from + 1)
    ensures guess[i] in Unmatched(secret, guess, claimed, from + 1) ==>
      ListRemove(Unmatched(secret, guess, claimed, from), guess[i])
        == Some([secret[from]] + ListRemove(Unmatched(secret, guess, claimed, from + 1), guess[i]).value)
  {
    var rest := Unmatched(secret, guess, claimed, from + 1);
    UnmatchedStep(secret, guess, claimed, from);
    forall j | from < j < |secret|
      ensures Unmatched(secret, guess, claimed + {j}, from) == [secret[from]] + Unmatched(secret, guess, claimed + {j}, from + 1)
    {
      assert from !in claimed + {j};
      UnmatchedStep(secret, guess, claimed + {j}, from);
    }
    assert !Eligible(secret, guess, claimed, i, from);
    if guess[i] in rest {
      ListRemoveCons(secret[from], rest, guess[i]);
    }
  }

  /** Position `from` contributes nothing to the remainder. */
  lemma SkipAbsent(secret: seq<int>, guess: seq<int>, claimed: set<int>, i: nat, from: nat)
    requires |secret| == |guess| && i < |guess| && from < |secret|
    requires !(secret[from] != guess[from] && from !in claimed)
    ensures Unmatched(secret, guess, claimed, from) == Unmatched(secret, guess, claimed, from + 1)
    ensures forall j | from < j < |secret| ::
      Unmatched(secret, guess, claimed + {j}, from) == Unmatched(secret, guess, claimed + {j}, from + 1)
    ensures FirstFree(secret, guess, claimed, i, from) == FirstFree(secret, guess, claimed, i, from + 1)
  {
  }

  /**
   * After the picks of positions before `u`, the matches made so far plus the overlap of
   * what is left equal the overlap of the two unmatched remainders.
   */
  lemma {:induction false} MatchCountInvariant(secret: seq<int>, guess: seq<int>, u: nat)
    requires |secret| == |guess| && u <= |guess|
    ensures MatchCount(Picks(secret, guess, u))
      + Overlap(Unmatched(guess, secret, {}, u), Unmatched(secret, guess, Claimed(secret, guess, u), 0))
      == Overlap(GuessRest(secret, guess), SecretRest(secret, guess))
    decreases u
  {
    if u > 0 {
      var i := u - 1;
      MatchCountInvariant(secret, guess, i);
      var earlier := Picks(secret, guess, i);
      var claimed := Claimed(secret, guess, i);
      var pick := Pick(secret, guess, i);
      assert Picks(secret, guess, u) == earlier + [pick];
      assert (earlier + [pick])[..|earlier + [pick]| - 1] == earlier;
      var rest := Unmatched(guess, secret, {}, u);
      var remaining := Unmatched(secret, guess, claimed, 0);
      if secret[i] != guess[i] {
        var a := Unmatched(guess, secret, {}, i);
        assert a == [guess[i]] + rest;
        assert a[0] == guess[i] && a[1..] == rest;
        FirstFreeRemoves(secret, guess, claimed, i, 0);
        assert pick == FirstFree(secret, guess, claimed, i, 0);
        if pick.Some? {
          assert Claimed(secret, guess, u) == claimed + {pick.value};
          assert MatchCount(Picks(secret, guess, u)) == MatchCount(earlier) + 1;
          assert Overlap(a, remaining) == 1 + Overlap(rest, Unmatched(secret, guess, claimed + {pick.value}, 0));
        } else {
          assert Claimed(secret, guess, u) == claimed;
          assert Overlap(a, remaining) == Overlap(rest, remaining);
        }
      } else {
        assert Unmatched(guess, secret, {}, i) == rest;
        assert pick == None;
        assert Claimed(secret, guess, u) == claimed;
        assert MatchCount(Picks(secret, guess, u)) == MatchCount(earlier);
      }
    } else {
      assert Unmatched(secret, guess, Claimed(secret, guess, 0), 0) == SecretRest(secret, guess);
    }
  }

  /** The greedy matching has exactly as many pairs as `eval_guess` reports symbol matches. */
  lemma MatchCountIsSymbolMatches(secret: seq<int>, guess: seq<int>)
    requires |secret| == |guess|
    ensures MatchCount(Picks(secret, guess, |guess|)) == Evaluate(secret, guess).symbolMatches
  {
    MatchCountInvariant(secret, guess, |guess|);
  }
}
