/** Sums of a column of reals over an index range, the fold behind every
    total that the reports derive from a schedule. */
module Sums {

  /** xs[lo] + xs[lo + 1] + ... + xs[hi - 1]; zero for an empty range. */
  function Sum(xs: seq<real>, lo: int, hi: int): real
    requires 0 <= lo && hi <= |xs|
    decreases hi - lo
  {
    if hi <= lo then 0.0 else Sum(xs, lo, hi - 1) + xs[hi - 1]
  }

  /** A range sum splits at any point in between. */
  lemma {:induction false} SumSplit(xs: seq<real>, lo: int, mid: int, hi: int)
    requires 0 <= lo <= mid <= hi <= |xs|
    ensures Sum(xs, lo, hi) == Sum(xs, lo, mid) + Sum(xs, mid, hi)
    decreases hi
  {
    if hi > mid {
      SumSplit(xs, lo, mid, hi - 1);
    }
  }

  /** Two columns that agree on a range have the same sum over it. */
  lemma {:induction false} SumPointwise(a: seq<real>, b: seq<real>, lo: int, hi: int)
    requires 0 <= lo && hi <= |a| && hi <= |b|
    requires forall i :: lo <= i < hi ==> a[i] == b[i]
    ensures Sum(a, lo, hi) == Sum(b, lo, hi)
    decreases hi - lo
  {
    if hi > lo {
      SumPointwise(a, b, lo, hi - 1);
    }
  }

  /** A range of zeros sums to zero. */
  lemma {:induction false} SumOfZeros(a: seq<real>, lo: int, hi: int)
    requires 0 <= lo && hi <= |a|
    requires forall i :: lo <= i < hi ==> a[i] == 0.0
    ensures Sum(a, lo, hi) == 0.0
    decreases hi - lo
  {
    if hi > lo {
      SumOfZeros(a, lo, hi - 1);
    }
  }

  /** A range in which every entry is c sums to c times its length. */
  lemma {:induction false} SumOfConstant(a: seq<real>, c: real, lo: int, hi: int)
    requires 0 <= lo <= hi <= |a|
    requires forall i :: lo <= i < hi ==> a[i] == c
    ensures Sum(a, lo, hi) == c * (hi - lo) as real
    decreases hi - lo
  {
    if hi > lo {
      SumOfConstant(a, c, lo, hi - 1);
    }
  }
}
