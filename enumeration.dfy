/**
 * `product(range(k), repeat=n)`: all length-n sequences over the symbols 0..k-1,
 * rightmost position advancing fastest. Entry `idx` is the n-digit base-k numeral of idx.
 */
module Enumeration {

  function Pow(b: nat, e: nat): nat
  {
    if e == 0 then 1 else b * Pow(b, e - 1)
  }

  /** A code of `n` positions, each holding a symbol in 0..k-1. */
  predicate WellFormed(s: seq<int>, n: nat, k: nat)
  {
    |s| == n && forall p | 0 <= p < n :: 0 <= s[p] < k
  }

  lemma QuotientBelow(idx: nat, k: nat, bound: nat)
    requires idx < k * bound
    ensures k > 0 && idx / k < bound
  {
    var q := idx / k;
    assert q * k <= idx;
  }

  /** Entry `idx` of the enumeration. */
  function Digits(n: nat, k: nat, idx: nat): (d: seq<int>)
    requires idx < Pow(k, n)
    ensures WellFormed(d, n, k)
  {
    if n == 0 then []
    else
      QuotientBelow(idx, k, Pow(k, n - 1));
      Digits(n - 1, k, idx / k) + [idx % k]
  }

  /** The number a sequence of base-k digits denotes (the inverse of `Digits`). */
  function Value(d: seq<int>, k: nat): int
  {
    if d == [] then 0 else Value(d[..|d| - 1], k) * k + d[|d| - 1]
  }

  /** The whole enumeration, materialised as `list(product(...))` does. */
  function Enumerate(n: nat, k: nat): (e: seq<seq<int>>)
    ensures |e| == Pow(k, n)
  {
    seq(Pow(k, n), idx requires 0 <= idx < Pow(k, n) => Digits(n, k, idx))
  }

  /** Reading back the digits of an index gives the index. */
  lemma {:induction false} ValueOfDigits(n: nat, k: nat, idx: nat)
    requires idx < Pow(k, n)
    ensures Value(Digits(n, k, idx), k) == idx
  {
    if n > 0 {
      var q, r := DigitsSplit(n, k, idx);
      ValueOfDigits(n - 1, k, q);
      ValueSnoc(Digits(n - 1, k, q), r, k);
    }
  }

  /** The digits of `idx` are those of `idx / k` followed by `idx % k`. */
  lemma DigitsSplit(n: nat, k: nat, idx: nat) returns (q: nat, r: nat)
    requires 0 < n && idx < Pow(k, n)
    ensures q < Pow(k, n - 1) && r < k && idx == q * k + r
    ensures Digits(n, k, idx) == Digits(n - 1, k, q) + [r]
  {
    QuotientBelow(idx, k, Pow(k, n - 1));
    q, r := idx / k, idx % k;
  }

  lemma ValueSnoc(front: seq<int>, r: int, k: nat)
    ensures Value(front + [r], k) == Value(front, k) * k + r
  {
    assert (front + [r])[..|front|] == front;
  }

  lemma ValueStep(v: int, bound: nat, k: nat, digit: int)
    requires 0 <= v < bound && 0 <= digit < k
    ensures 0 <= v * k + digit < bound * k
  {
    assert v * k <= (bound - 1) * k;
  }

  lemma DivModUnique(q: int, k: nat, r: int)
    requires 0 <= q && 0 <= r < k
    ensures (q * k + r) / k == q && (q * k + r) % k == r
  {
    var x := q * k + r;
    var q', r' := x / k, x % k;
    assert x == q' * k + r' && 0 <= r' < k;
    if q' > q {
      MulNonNegative(q' - q - 1, k);
      assert false;
    } else if q' < q {
      MulNonNegative(q - q' - 1, k);
      assert false;
    }
  }

  lemma MulNonNegative(a: int, b: int)
    requires 0 <= a && 0 <= b
    ensures 0 <= a * b
  {
  }

  /** Every well-formed code denotes an index of the enumeration, whose digits are the code again. */
  lemma {:induction false} DigitsOfValue(d: seq<int>, n: nat, k: nat)
    requires WellFormed(d, n, k)
    ensures 0 <= Value(d, k) < Pow(k, n)
    ensures Digits(n, k, Value(d, k)) == d
  {
    if n > 0 {
      var front, last := d[..n - 1], d[n - 1];
      DigitsOfValue(front, n - 1, k);
      var v := Value(front, k);
      ValueStep(v, Pow(k, n - 1), k, last);
      assert Value(d, k) == v * k + last;
      DivModUnique(v, k, last);
      assert d == front + [last];
    }
  }

  /** The enumeration holds exactly the well-formed codes. */
  lemma EnumerationComplete(s: seq<int>, n: nat, k: nat)
    ensures s in Enumerate(n, k) <==> WellFormed(s, n, k)
  {
    if WellFormed(s, n, k) {
      DigitsOfValue(s, n, k);
      assert Enumerate(n, k)[Value(s, k)] == s;
    }
  }

  /** No code occurs twice. */
  predicate Distinct(codes: seq<seq<int>>)
  {
    forall i, j | 0 <= i < j < |codes| :: codes[i] != codes[j]
  }

  /** The enumeration lists no code twice. */
  lemma EnumerationDistinct(n: nat, k: nat)
    ensures Distinct(Enumerate(n, k))
  {
    forall i, j | 0 <= i < j < |Enumerate(n, k)| ensures Enumerate(n, k)[i] != Enumerate(n, k)[j] {
      ValueOfDigits(n, k, i);
      ValueOfDigits(n, k, j);
    }
  }

  /** `a` comes strictly before `b` in lexicographic order. */
  predicate LexLess(a: seq<int>, b: seq<int>)
  {
    exists p :: 0 <= p < |a| && p < |b| && a[..p] == b[..p] && a[p] < b[p]
  }

  lemma QuotientOrder(qi: nat, ri: nat, qj: nat, rj: nat, k: nat)
    requires ri < k && rj < k && qi * k + ri < qj * k + rj
    ensures qi <= qj
    ensures qi == qj ==> ri < rj
  {
    if qi > qj {
      MulNonNegative(qi - qj - 1, k);
      assert false;
    }
  }

  /** `product` yields the codes in increasing lexicographic order. */
  lemma {:induction false} EnumerationLexOrdered(n: nat, k: nat, i: nat, j: nat)
    requires i < j < Pow(k, n)
    ensures LexLess(Enumerate(n, k)[i], Enumerate(n, k)[j])
  {
    DigitsLexOrdered(n, k, i, j);
  }

  lemma {:induction false} DigitsLexOrdered(n: nat, k: nat, i: nat, j: nat)
    requires i < j < Pow(k, n)
    ensures LexLess(Digits(n, k, i), Digits(n, k, j))
  {
    if n == 0 {
      assert false;
    }
    var qi, ri := DigitsSplit(n, k, i);
    var qj, rj := DigitsSplit(n, k, j);
    QuotientOrder(qi, ri, qj, rj, k);
    if qi < qj {
      DigitsLexOrdered(n - 1, k, qi, qj);
      LexLessSnoc(Digits(n - 1, k, qi), Digits(n - 1, k, qj), ri, rj);
    } else {
      LexLessLast(Digits(n - 1, k, qi), ri, rj);
    }
  }

  /** Appending one symbol to each side keeps a strict lexicographic order. */
  lemma LexLessSnoc(a: seq<int>, b: seq<int>, x: int, y: int)
    requires LexLess(a, b)
    ensures LexLess(a + [x], b + [y])
  {
    var p :| 0 <= p < |a| && p < |b| && a[..p] == b[..p] && a[p] < b[p];
    assert (a + [x])[..p] == a[..p] && (b + [y])[..p] == b[..p];
    assert (a + [x])[p] == a[p] && (b + [y])[p] == b[p];
  }

  /** Two codes with a common front are ordered by their last symbols. */
  lemma LexLessLast(front: seq<int>, x: int, y: int)
    requires x < y
    ensures LexLess(front + [x], front + [y])
  {
    var p := |front|;
    assert (front + [x])[..p] == front && (front + [y])[..p] == front;
    assert (front + [x])[p] == x && (front + [y])[p] == y;
  }
}
