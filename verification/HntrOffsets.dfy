/**
 Fractions of the east-west sweep of slib/icebin/modele/hntr.cpp for grids whose offsets lie far apart: only the last B
 column can get a negative part of an A column, and it gets one for A column 1.
 */
module HntrOffsets {
  import opened Vectors
  import opened Sums
  import opened Sweeps
  import opened Ints
  import opened HntrSweeps
  import opened HntrIntegrals

  /** No B column gets a negative part of any A column, all copies of the A column around the globe taken together. */
  predicate CoversAreProper(a: HntrSpec, b: HntrSpec)
  {
    FirstEdgeWest(a, b) || Times(a.im - 1, b.im - 1) <= 1
  }

  lemma PartTimes(d: real, low: real, high: real)
    ensures Prod(d, 1.0 - low - high) == Prod(d, 1.0 - high) - Prod(d, low)
    ensures Prod(d, 1.0 - low) == d - Prod(d, low)
  {
    hide Prod;
    ProdPlus(d, 1.0 - low - high, low);
    ProdPlus(d, 1.0 - low, low);
    ProdConst(d);
  }

  /** Scaled part of an A cell that is not the last one of the last B column. */
  lemma ScaledPart(a: HntrSpec, b: HntrSpec, s: Sweep, j: int, k: int)
    requires a.Valid() && b.Valid() && EastWestDone(a, b, s) && 1 <= j <= b.im && s.min[j] <= k <= s.max[j]
    requires j < b.im || k < s.max[j]
    ensures Prod(b.im as real, s.Part(One, j, k))
         == (if k == s.max[j] then EdgeB(a, b, j) else EdgeA(a, b, k))
          - (if k == s.min[j] then EdgeB(a, b, j - 1) else EdgeA(a, b, k - 1))
  {
    hide Prod, EdgeA, EdgeB;
    var d := b.im as real;
    assert WesternCut(a, b, s, j);
    EdgeSteps(a, b, k - 1);
    PartTimes(d, s.low[j], s.high[j]);
    ProdConst(d);
    if j < b.im {
      assert EasternCut(a, b, s, j);
    }
  }

  /** All parts but that of the last A cell in the last B column are non-negative. */
  lemma EarlierParts(a: HntrSpec, b: HntrSpec, s: Sweep, j: int, k: int)
    requires a.Valid() && b.Valid() && EastWestDone(a, b, s) && 1 <= j <= b.im && s.min[j] <= k <= s.max[j]
    requires j < b.im || k < s.max[j]
    ensures s.Part(One, j, k) >= 0.0
  {
    hide Prod, EdgeA, EdgeB, Sweep.Part;
    ScaledPart(a, b, s, j, k);
    ScaledSign(b.im as real, s.Part(One, j, k));
    assert WesternCut(a, b, s, j);
    EdgeOrder(a, b, j - 1, j);
    EdgeOrder(a, b, k - 1, k);
    if j < b.im {
      assert EasternCut(a, b, s, j);
    }
  }

  // ---------------------------------------------------------------- A column 1 in the last B column

  /** The parts of both copies of A column 1 in the last B column. */
  ghost function FirstNet(a: HntrSpec, b: HntrSpec, s: Sweep): real
    requires s.HasCells(b.im)
  {
    (if s.min[b.im] == 1 then s.Part(One, b.im, 1) else 0.0) + s.Part(One, b.im, 1 + a.im)
  }

  lemma EdgeSpan(a: HntrSpec, b: HntrSpec)
    requires a.Valid() && b.Valid()
    ensures EdgeB(a, b, b.im - 1) == EdgeB(a, b, 0) + (b.im - 1) as real + Times(a.im - 1, b.im - 1) as real
    ensures EdgeA(a, b, 1) == EdgeA(a, b, 0) + b.im as real
  {
    var m, n := a.im - 1, b.im - 1;
    assert (n as real) * ((m + 1) as real) == n as real + (m * n) as real;
  }

  /** The last copy of A column 1 is cut off west of its own western edge. */
  lemma LastCopy(a: HntrSpec, b: HntrSpec, s: Sweep)
    requires a.Valid() && b.Valid() && EastWestDone(a, b, s) && !FirstEdgeWest(a, b)
    ensures s.HasCells(b.im) && 1 <= s.min[b.im] <= a.im && s.max[b.im] == 1 + a.im
    ensures Prod(b.im as real, s.Part(One, b.im, 1 + a.im)) == EdgeB(a, b, 0) - EdgeA(a, b, 0) < 0.0
  {
    hide Prod, EdgeA, EdgeB;
    NegativeFraction(a, b, s);
    assert WesternCut(a, b, s, b.im);
  }

  /** Scaled by the width of an A cell, the net part of A column 1 is 1 - (imA - 1) (imB - 1), or still smaller. */
  lemma FirstNetSign(a: HntrSpec, b: HntrSpec, s: Sweep)
    requires a.Valid() && b.Valid() && EastWestDone(a, b, s) && !FirstEdgeWest(a, b)
    ensures s.HasCells(b.im)
    ensures FirstNet(a, b, s) >= 0.0 <==> Times(a.im - 1, b.im - 1) <= 1
  {
    hide Prod, EdgeA, EdgeB, Sweep.Part, Times;
    var n, d := b.im, b.im as real;
    LastCopy(a, b, s);
    EdgeSpan(a, b);
    ScaledSign(d, FirstNet(a, b, s));
    if s.min[n] == 1 {
      ScaledPart(a, b, s, n, 1);
      ProdPlus(d, s.Part(One, n, 1), s.Part(One, n, 1 + a.im));
    } else {
      assert WesternCut(a, b, s, n);
      EdgeOrder(a, b, 1, s.min[n] - 1);
    }
  }

  /** The columns that the last B column visits besides column 1. */
  ghost function OtherFrom(b: HntrSpec, s: Sweep): int
    requires s.HasCells(b.im)
  {
    if s.min[b.im] == 1 then 2 else s.min[b.im]
  }

  /** A field integrated along the last B column, with the copies of A column 1 taken together. */
  lemma LastColumnField(a: HntrSpec, b: HntrSpec, s: Sweep, q: (int, int) -> real, ja: int)
    requires a.Valid() && b.Valid() && EastWestDone(a, b, s) && !FirstEdgeWest(a, b)
    ensures s.HasCells(b.im) && 2 <= OtherFrom(b, s) <= 1 + a.im
    ensures ColumnField(a.im, s, q, b.im)(ja)
         == Prod(FirstNet(a, b, s), q(1, ja)) + RangeSum(OtherFrom(b, s), 1 + a.im, ColumnTerm(a.im, s, q, b.im, ja))
  {
    hide Prod, EdgeA, EdgeB, Sweep.Part, ColumnField, ColumnTerm, Wrap, EastWestDone;
    LastCopy(a, b, s);
    var n, im, t := b.im, a.im, ColumnTerm(a.im, s, q, b.im, ja);
    ColumnFieldIs(im, s, q, n, ja);
    RangeSumLast(s.min[n], 1 + im, t);
    ColumnTermAt(im, s, q, n, ja, 1 + im);
    ColumnTermAt(im, s, q, n, ja, 1);
    WrapPeriod(im, 1);
    if s.min[n] == 1 {
      RangeSumSplit(1, 2, 1 + im, t);
      RangeSumOne(1, t);
      ProdPlus(q(1, ja), s.Part(One, n, 1), s.Part(One, n, 1 + im));
    }
  }

  // ---------------------------------------------------------------- a column that is covered

  lemma {:induction false} PositiveTerm(lo: int, hi: int, f: int -> real) returns (k: int)
    requires RangeSum(lo, hi, f) > 0.0
    ensures lo <= k < hi && f(k) > 0.0
    decreases hi - lo
  {
    if f(hi - 1) > 0.0 {
      k := hi - 1;
    } else {
      k := PositiveTerm(lo, hi - 1, f);
    }
  }

  /** If the last B column gets a negative part of A column 1, it gets a positive part of another one. */
  lemma CoveredColumn(a: HntrSpec, b: HntrSpec, s: Sweep) returns (k: int)
    requires a.Valid() && b.Valid() && EastWestDone(a, b, s) && !CoversAreProper(a, b)
    ensures s.HasCells(b.im) && FirstNet(a, b, s) < 0.0
    ensures OtherFrom(b, s) <= k <= a.im && s.Part(One, b.im, k) > 0.0
  {
    hide Prod, EdgeA, EdgeB, Sweep.Part, ColumnTerm, EastWestDone, FirstNet, FirstEdgeWest, Wrap;
    LastCopy(a, b, s);
    FirstNetSign(a, b, s);
    ColumnWidth(a, b, s, b.im);
    var q: (int, int) -> real := (i, j) => 1.0;
    LastColumnField(a, b, s, q, 1);
    UnitRow(a, b, s, q);
    ScaledSign(b.im as real, s.Row(One, One, b.im));
    ProdConst(FirstNet(a, b, s));
    k := PositiveTerm(OtherFrom(b, s), 1 + a.im, ColumnTerm(a.im, s, q, b.im, 1));
    ColumnTermAt(a.im, s, q, b.im, 1, k);
    ProdConst(s.Part(One, b.im, k));
  }

  lemma UnitRow(a: HntrSpec, b: HntrSpec, s: Sweep, q: (int, int) -> real)
    requires a.Valid() && b.Valid() && EastWestDone(a, b, s) && forall i, j :: q(i, j) == 1.0
    ensures ColumnField(a.im, s, q, b.im)(1) == s.Row(One, One, b.im)
  {
    hide Prod, EdgeA, EdgeB, Sweep.Row, SameCut;
    SweepLink(a, b, s, b.im);
    RowSame(s, One, Around(a.im, Slice(q, 1)), One, b.im);
  }
}
