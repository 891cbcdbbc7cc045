/** Cardinalities of finite sets. */
module Sets {

  lemma {:induction false} SubsetSize<T>(a: set<T>, b: set<T>)
    requires a <= b
    ensures |a| <= |b|
  {
    if a != {} {
      var x :| x in a;
      SubsetSize(a - {x}, b - {x});
    }
  }

  lemma SubsetEqual<T>(a: set<T>, b: set<T>)
    requires a <= b && |a| == |b|
    ensures a == b
  {
    if b - a != {} {
      var x :| x in b - a;
      SubsetSize(a, b - {x});
    }
  }

  /** A larger set has an element outside a smaller one. */
  lemma LargerHasMore<T>(a: set<T>, b: set<T>) returns (x: T)
    requires |a| > |b|
    ensures x in a && x !in b
  {
    if a - b == {} {
      forall y | y in a ensures y in b {
        assert y !in a - b;
      }
      SubsetSize(a, b);
    }
    x :| x in a - b;
  }
}

/**
 * Finite sums of integer weights over sequences, one weight per process.  The
 * invariants of the two protocols are equations between such sums.
 */
module Sums {

  ghost function Sum<T>(s: seq<T>, w: T -> int): int {
    if s == [] then 0 else w(s[0]) + Sum(s[1..], w)
  }

  /** Replacing one element changes the sum by the difference of the weights. */
  lemma {:induction false} SumUpdate<T>(s: seq<T>, i: nat, x: T, w: T -> int)
    requires i < |s|
    ensures Sum(s[i := x], w) == Sum(s, w) - w(s[i]) + w(x)
  {
    if i == 0 {
      assert s[i := x][1..] == s[1..];
    } else {
      SumUpdate(s[1..], i - 1, x, w);
      assert s[i := x][1..] == s[1..][i - 1 := x];
    }
  }

  /** A sum of non-negative weights is at least each of its terms. */
  lemma {:induction false} SumAtLeast<T>(s: seq<T>, i: nat, w: T -> int)
    requires i < |s|
    requires forall k :: 0 <= k < |s| ==> w(s[k]) >= 0
    ensures Sum(s, w) >= w(s[i])
  {
    SumNonNegative(s[1..], w);
    if i > 0 {
      SumAtLeast(s[1..], i - 1, w);
    }
  }

  /** Two different positions contribute both of their weights. */
  lemma {:induction false} SumAtLeastTwo<T>(s: seq<T>, i: nat, j: nat, w: T -> int)
    requires i < j < |s|
    requires forall k :: 0 <= k < |s| ==> w(s[k]) >= 0
    ensures Sum(s, w) >= w(s[i]) + w(s[j])
  {
    if i == 0 {
      SumAtLeast(s[1..], j - 1, w);
    } else {
      SumAtLeastTwo(s[1..], i - 1, j - 1, w);
    }
  }

  lemma {:induction false} SumNonNegative<T>(s: seq<T>, w: T -> int)
    requires forall k :: 0 <= k < |s| ==> w(s[k]) >= 0
    ensures Sum(s, w) >= 0
  {
    if s != [] {
      SumNonNegative(s[1..], w);
    }
  }

  /** Sums agree when the weights agree on every element. */
  lemma {:induction false} SumCongruent<T>(s: seq<T>, v: T -> int, w: T -> int)
    requires forall k :: 0 <= k < |s| ==> v(s[k]) == w(s[k])
    ensures Sum(s, v) == Sum(s, w)
  {
    if s != [] {
      SumCongruent(s[1..], v, w);
    }
  }

  /** A non-zero sum of non-negative weights has a contributing position. */
  lemma {:induction false} SumPositive<T>(s: seq<T>, w: T -> int) returns (i: nat)
    requires Sum(s, w) > 0
    ensures i < |s| && w(s[i]) > 0
  {
    if w(s[0]) > 0 {
      i := 0;
    } else {
      i := SumPositive(s[1..], w);
      i := i + 1;
    }
  }

  lemma {:induction false} SumZero<T>(s: seq<T>, w: T -> int)
    requires forall k :: 0 <= k < |s| ==> w(s[k]) == 0
    ensures Sum(s, w) == 0
  {
    if s != [] {
      SumZero(s[1..], w);
    }
  }
}
