/**
 * Python list operations the feedback oracle relies on, and the multiset
 * overlap that gives the number of symbol matches its meaning.
 */
module ListOps {
  import opened Wrappers

  /** Position of the first occurrence of `x` in `xs`. */
  function FirstIndex(xs: seq<int>, x: int): (i: nat)
    requires x in xs
    ensures i < |xs| && xs[i] == x && x !in xs[..i]
  {
    if xs[0] == x then 0 else 1 + FirstIndex(xs[1..], x)
  }

  /** `xs.remove(x)`: deletes the first occurrence of `x`; `None` stands for the ValueError raised when `x` is absent. */
  function ListRemove(xs: seq<int>, x: int): (r: Option<seq<int>>)
    ensures r.None? <==> x !in xs
    ensures r.Some? ==> |r.value| == |xs| - 1
    ensures r.Some? ==> multiset(r.value) == multiset(xs) - multiset{x}
  {
    if x in xs then
      var i := FirstIndex(xs, x);
      assert xs == xs[..i] + [x] + xs[i + 1..];
      Some(xs[..i] + xs[i + 1..])
    else
      None
  }

  /** Removing from a list whose head differs from `x` keeps the head and removes from the tail. */
  lemma ListRemoveCons(y: int, rest: seq<int>, x: int)
    requires x in rest && y != x
    ensures ListRemove([y] + rest, x) == Some([y] + ListRemove(rest, x).value)
  {
    var xs := [y] + rest;
    assert xs[1..] == rest;
    var i := FirstIndex(rest, x);
    assert FirstIndex(xs, x) == i + 1;
    assert xs[..i + 1] == [y] + rest[..i];
    assert xs[i + 2..] == rest[i + 1..];
    assert xs[..i + 1] + xs[i + 2..] == [y] + (rest[..i] + rest[i + 1..]);
  }

  /** Removing `x` from a list that starts with `x` drops the head. */
  lemma ListRemoveHead(x: int, rest: seq<int>)
    ensures ListRemove([x] + rest, x) == Some(rest)
  {
    var xs := [x] + rest;
    assert xs[0] == x && xs[1..] == rest;
    assert FirstIndex(xs, x) == 0;
    assert xs[..0] + xs[1..] == rest;
  }

  /**
   * Number of symbol matches between two unordered collections, counted the way the
   * feedback loop does: each symbol of `a` in turn takes one copy of itself out of `b`.
   */
  function Overlap(a: seq<int>, b: seq<int>): nat
  {
    if a == [] then 0
    else if a[0] in b then 1 + Overlap(a[1..], ListRemove(b, a[0]).value)
    else Overlap(a[1..], b)
  }

  /** The greedy count is the size of the multiset intersection: the order of `a` does not matter. */
  lemma {:induction false} OverlapIsCommonCount(a: seq<int>, b: seq<int>)
    ensures Overlap(a, b) == |multiset(a) * multiset(b)|
  {
    if a != [] {
      var x, rest := a[0], a[1..];
      assert a == [x] + rest;
      assert multiset(a) == multiset{x} + multiset(rest);
      if x in b {
        var b' := ListRemove(b, x).value;
        OverlapIsCommonCount(rest, b');
        assert multiset(b) == multiset{x} + multiset(b');
        CommonWithShared(x, multiset(rest), multiset(b'));
      } else {
        OverlapIsCommonCount(rest, b);
        CommonWithAbsent(x, multiset(rest), multiset(b));
      }
    }
  }

  /** A symbol both sides hold once more adds one common element. */
  lemma CommonWithShared(x: int, r: multiset<int>, b: multiset<int>)
    ensures |(multiset{x} + r) * (multiset{x} + b)| == 1 + |r * b|
  {
    assert (multiset{x} + r) * (multiset{x} + b) == multiset{x} + (r * b);
  }

  /** A symbol the other side lacks adds no common element. */
  lemma CommonWithAbsent(x: int, r: multiset<int>, b: multiset<int>)
    requires x !in b
    ensures (multiset{x} + r) * b == r * b
  {
  }

  /** The overlap never exceeds either side. */
  lemma OverlapBounded(a: seq<int>, b: seq<int>)
    ensures Overlap(a, b) <= |a| && Overlap(a, b) <= |b|
  {
    OverlapIsCommonCount(a, b);
    var A, B := multiset(a), multiset(b);
    assert A == (A * B) + (A - B);
    assert B == (A * B) + (B - A);
  }

  /** The overlap is symmetric, although the greedy count walks only its first argument. */
  lemma OverlapSymmetric(a: seq<int>, b: seq<int>)
    ensures Overlap(a, b) == Overlap(b, a)
  {
    OverlapIsCommonCount(a, b);
    OverlapIsCommonCount(b, a);
    assert multiset(a) * multiset(b) == multiset(b) * multiset(a);
  }
}
