/** Sums over integer ranges. */
module Sums {
  import opened Vectors

  /** f(lo) + ... + f(hi - 1) */
  ghost function RangeSum(lo: int, hi: int, f: int -> real): real
    decreases hi - lo
  {
    if hi <= lo then 0.0 else RangeSum(lo, hi - 1, f) + f(hi - 1)
  }

  lemma RangeSumEmpty(lo: int, hi: int, f: int -> real)
    requires hi <= lo
    ensures RangeSum(lo, hi, f) == 0.0
  {
  }

  lemma RangeSumLast(lo: int, hi: int, f: int -> real)
    requires lo <= hi
    ensures RangeSum(lo, hi + 1, f) == RangeSum(lo, hi, f) + f(hi)
  {
  }

  lemma RangeSumOne(k: int, f: int -> real)
    ensures RangeSum(k, k + 1, f) == f(k)
  {
    assert RangeSum(k, k, f) == 0.0;
  }

  lemma {:induction false} RangeSumSame(lo: int, hi: int, f: int -> real, g: int -> real)
    requires forall k :: lo <= k < hi ==> f(k) == g(k)
    ensures RangeSum(lo, hi, f) == RangeSum(lo, hi, g)
    decreases hi - lo
  {
    if lo < hi {
      RangeSumSame(lo, hi - 1, f, g);
    }
  }

  lemma {:induction false} RangeSumPlus(lo: int, hi: int, f: int -> real, g: int -> real, s: int -> real)
    requires forall k :: lo <= k < hi ==> s(k) == f(k) + g(k)
    ensures RangeSum(lo, hi, s) == RangeSum(lo, hi, f) + RangeSum(lo, hi, g)
    decreases hi - lo
  {
    if lo < hi {
      RangeSumPlus(lo, hi - 1, f, g, s);
    }
  }

  lemma {:induction false} RangeSumScale(lo: int, hi: int, c: real, f: int -> real, s: int -> real)
    requires forall k :: lo <= k < hi ==> s(k) == Prod(c, f(k))
    ensures RangeSum(lo, hi, s) == Prod(c, RangeSum(lo, hi, f))
    decreases hi - lo
  {
    hide Prod;
    if lo < hi {
      RangeSumScale(lo, hi - 1, c, f, s);
      ProdPlus(c, RangeSum(lo, hi - 1, f), f(hi - 1));
    } else {
      ProdConst(c);
    }
  }

  lemma {:induction false} RangeSumSplit(lo: int, mid: int, hi: int, f: int -> real)
    requires lo <= mid <= hi
    ensures RangeSum(lo, hi, f) == RangeSum(lo, mid, f) + RangeSum(mid, hi, f)
    decreases hi - mid
  {
    if mid < hi {
      RangeSumSplit(lo, mid, hi - 1, f);
    }
  }

  lemma {:induction false} RangeSumShift(lo: int, hi: int, d: int, f: int -> real, g: int -> real)
    requires forall k :: lo <= k < hi ==> f(k) == g(k + d)
    ensures RangeSum(lo, hi, f) == RangeSum(lo + d, hi + d, g)
    decreases hi - lo
  {
    if lo < hi {
      RangeSumShift(lo, hi - 1, d, f, g);
    }
  }

  lemma {:induction false} RangeSumNonNegative(lo: int, hi: int, f: int -> real)
    requires forall k :: lo <= k < hi ==> f(k) >= 0.0
    ensures RangeSum(lo, hi, f) >= 0.0
    ensures RangeSum(lo, hi, f) == 0.0 ==> forall k :: lo <= k < hi ==> f(k) == 0.0
    decreases hi - lo
  {
    if lo < hi {
      RangeSumNonNegative(lo, hi - 1, f);
    }
  }

  /** A sum with a single term that may be non-zero. */
  lemma {:induction false} RangeSumPick(lo: int, hi: int, f: int -> real, k: int)
    requires lo <= k < hi && forall i :: lo <= i < hi && i != k ==> f(i) == 0.0
    ensures RangeSum(lo, hi, f) == f(k)
    decreases hi - lo
  {
    if k < hi - 1 {
      RangeSumPick(lo, hi - 1, f, k);
    } else {
      ZeroRange(lo, hi - 1);
      RangeSumSame(lo, hi - 1, f, _ => 0.0);
    }
  }

  lemma ZeroRange(lo: int, hi: int)
    ensures RangeSum(lo, hi, _ => 0.0) == 0.0
    decreases hi - lo
  {
    var z: int -> real := _ => 0.0;
    RangeSumNonNegative(lo, hi, z);
    RangeSumPlus(lo, hi, z, z, z);
    RangeSumSame(lo, hi, z, _ => 0.0);
  }
}
