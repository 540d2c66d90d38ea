/**
 "The area weighted integral of the quantity is conserved" (slib/icebin/modele/hntr.hpp): the weights and
 values that regrid leaves on grid B integrate to the integral of the quantity on grid A.
 */
module HntrConservation {
  import opened Vectors
  import opened Sums
  import opened Sweeps
  import opened HntrSweeps
  import opened HntrIntegrals
  import opened HntrOffsets
  import HntrOverlap
  import opened Ints

  /** Integral over B of the regridded field: weight of each B cell times the value stored for it. */
  ghost function StoredIntegral(c: Cuts, wq: (int, int) -> real, b: seq<real>): (int, int) -> real
  {
    (i, j) => var n := CellNumber(c.b.im, i, j) - 1;
              if 0 <= n < |b| then Prod(c.Integral(wq, i, j), b[n]) else 0.0
  }

  /** What is lost in B cells whose weight is 0: they hold the missing-data value instead. */
  ghost function Missing(c: Cuts, wq: (int, int) -> real, vq: (int, int) -> real): (int, int) -> real
  {
    (i, j) => if c.Integral(wq, i, j) == 0.0 then c.Integral(vq, i, j) else 0.0
  }

  ghost function Integrals(c: Cuts, q: (int, int) -> real): (int, int) -> real
  {
    (i, j) => c.Integral(q, i, j)
  }

  lemma GridSumOfIntegrals(c: Cuts, q: (int, int) -> real)
    requires c.Done()
    ensures c.a.im >= 1 && |c.ea| > 0
    ensures GridSum(c.b.im, c.b.jm, Integrals(c, q)) == TotalOverB(c.a.im, c.ew, c.ea, c.ns, q, c.b.im, c.b.jm)
  {
    hide Prod, CellIntegral, Cuts.Done;
    DoneSizes(c);
    var f := Integrals(c, q);
    forall j | 1 <= j < c.b.jm + 1
      ensures RangeSum(1, c.b.im + 1, Slice(f, j)) == RowOfB(c.a.im, c.ew, c.ea, c.ns, q, c.b.im, j)
    {
      RangeSumSame(1, c.b.im + 1, Slice(f, j), ib => CellIntegral(c.a.im, c.ew, c.ea, c.ns, q, ib, j));
      RowOfBSum(c, q, j);
    }
    RangeSumSame(1, c.b.jm + 1, j => RangeSum(1, c.b.im + 1, Slice(f, j)),
                 jb => RowOfB(c.a.im, c.ew, c.ea, c.ns, q, c.b.im, jb));
    TotalOverBSum(c, q);
  }

  lemma DoneSizes(c: Cuts)
    requires c.Done()
    ensures c.a.Valid() && c.b.Valid() && |c.ea| == c.a.jm + 1 && |c.eb| == c.b.jm + 1
    ensures c.a.im >= 1 && c.b.im >= 1
    ensures EastWestDone(c.a, c.b, c.ew) && NorthSouthDone(c.ea, c.eb, c.ns)
  {
  }

  lemma RowOfBSum(c: Cuts, q: (int, int) -> real, j: int)
    requires c.a.im >= 1 && |c.ea| > 0
    ensures RowOfB(c.a.im, c.ew, c.ea, c.ns, q, c.b.im, j)
         == RangeSum(1, c.b.im + 1, ib => CellIntegral(c.a.im, c.ew, c.ea, c.ns, q, ib, j))
  {
    hide CellIntegral;
    var im, ew, ea, ns := c.a.im, c.ew, c.ea, c.ns;
    RangeSumSame(1, c.b.im + 1, ib => CellIntegral(im, ew, ea, ns, q, ib, j),
                 ib => CellIntegral(c.a.im, c.ew, c.ea, c.ns, q, ib, j));
  }

  lemma TotalOverBSum(c: Cuts, q: (int, int) -> real)
    requires c.a.im >= 1 && |c.ea| > 0
    ensures TotalOverB(c.a.im, c.ew, c.ea, c.ns, q, c.b.im, c.b.jm)
         == RangeSum(1, c.b.jm + 1, jb => RowOfB(c.a.im, c.ew, c.ea, c.ns, q, c.b.im, jb))
  {
    hide RowOfB;
    var im, ew, ea, ns, imB := c.a.im, c.ew, c.ea, c.ns, c.b.im;
    RangeSumSame(1, c.b.jm + 1, jb => RowOfB(im, ew, ea, ns, q, imB, jb),
                 jb => RowOfB(c.a.im, c.ew, c.ea, c.ns, q, c.b.im, jb));
  }

  ghost predicate IsRegridded(c: Cuts, datmis: real, wtm: real, wtb: real, wta: seq<real>, a: seq<real>, b: seq<real>)
    requires c.b.im >= 1
  {
    |b| == Times(c.b.im, c.b.jm) && forall n :: 0 <= n < |b| ==> b[n] == Regridded(c, datmis, wtm, wtb, wta, a, n)
  }

  lemma MeanTimesWeight(w: real, v: real, datmis: real)
    ensures Prod(w, Mean(w, v, datmis)) + (if w == 0.0 then v else 0.0) == v
  {
  }

  /** One B cell: stored integral plus what is missing is the integral of the source. */
  lemma CellBalance(c: Cuts, datmis: real, wtm: real, wtb: real, wta: seq<real>, a: seq<real>, b: seq<real>, i: int,
                    j: int)
    requires c.Done() && IsRegridded(c, datmis, wtm, wtb, wta, a, b) && 1 <= i <= c.b.im && 1 <= j <= c.b.jm
    ensures
      var wq, vq := WeightField(c.a.im, wtm, wtb, wta), ValueField(c.a.im, wtm, wtb, wta, a);
      StoredIntegral(c, wq, b)(i, j) + Missing(c, wq, vq)(i, j) == Integrals(c, vq)(i, j)
  {
    hide Prod, Cuts.Integral, Cuts.Done, CellNumber, Mean, WeightField, ValueField, Times, Quot, Rem;
    var wq, vq := WeightField(c.a.im, wtm, wtb, wta), ValueField(c.a.im, wtm, wtb, wta, a);
    CellNumberRange(c.b.im, c.b.jm, i, j);
    CellNumberInverse(c.b.im, i, j);
    var n := CellNumber(c.b.im, i, j) - 1;
    assert b[n] == Mean(c.Integral(wq, i, j), c.Integral(vq, i, j), datmis);
    MeanTimesWeight(c.Integral(wq, i, j), c.Integral(vq, i, j), datmis);
  }

  /** For all inputs: what B holds plus what was lost to missing data is the integral over A. */
  lemma RegridBalance(c: Cuts, datmis: real, wtm: real, wtb: real, wta: seq<real>, a: seq<real>, b: seq<real>)
    requires c.Done() && IsRegridded(c, datmis, wtm, wtb, wta, a, b)
    ensures |c.ea| > 0
    ensures
      var wq, vq := WeightField(c.a.im, wtm, wtb, wta), ValueField(c.a.im, wtm, wtb, wta, a);
      GridSum(c.b.im, c.b.jm, StoredIntegral(c, wq, b)) + GridSum(c.b.im, c.b.jm, Missing(c, wq, vq))
      == TotalOverA(c.a.im, c.ea, vq)
  {
    hide *;
    var wq, vq := WeightField(c.a.im, wtm, wtb, wta), ValueField(c.a.im, wtm, wtb, wta, a);
    DoneSizes(c);
    var f, g, s := StoredIntegral(c, wq, b), Missing(c, wq, vq), Integrals(c, vq);
    forall i, j | 1 <= i <= c.b.im && 1 <= j <= c.b.jm ensures s(i, j) == f(i, j) + g(i, j) {
      CellBalance(c, datmis, wtm, wtb, wta, a, b, i, j);
    }
    GridSumPlus(c.b.im, c.b.jm, f, g, s);
    GridSumOfIntegrals(c, vq);
    CellsConserve(c.a, c.b, c.ew, c.ea, c.eb, c.ns, vq);
  }

  // ---------------------------------------------------------------- non-negative weights

  /** Weights are non-negative, and a cell of weight 0 has weighted value 0. */
  ghost predicate WeightsCover(c: Cuts, wq: (int, int) -> real, vq: (int, int) -> real)
  {
    forall i, j :: 1 <= i <= c.a.im && 1 <= j <= c.a.jm ==> wq(i, j) >= 0.0 && (wq(i, j) == 0.0 ==> vq(i, j) == 0.0)
  }

  /** All but the last of the terms of a B column, and all of them if its parts are non-negative. */
  lemma TermsCovered(c: Cuts, wq: (int, int) -> real, vq: (int, int) -> real, ib: int, ja: int, lo: int, hi: int)
    requires c.Done() && WeightsCover(c, wq, vq) && 1 <= ib <= c.b.im && 1 <= ja <= c.a.jm
    requires c.ew.HasCells(c.b.im) && c.a.im >= 1 && 1 <= lo
    requires forall k :: lo <= k < hi ==> c.ew.Part(One, ib, k) >= 0.0
    ensures var tw, tv := ColumnTerm(c.a.im, c.ew, wq, ib, ja), ColumnTerm(c.a.im, c.ew, vq, ib, ja);
            RangeSum(lo, hi, tw) >= 0.0 && (RangeSum(lo, hi, tw) == 0.0 ==> RangeSum(lo, hi, tv) == 0.0)
  {
    hide Prod, EastWestDone, NorthSouthDone, Wrap, ColumnTerm, Sweep.Part;
    var im, ew := c.a.im, c.ew;
    var tw, tv := ColumnTerm(im, ew, wq, ib, ja), ColumnTerm(im, ew, vq, ib, ja);
    forall k | lo <= k < hi ensures tw(k) >= 0.0 && (tw(k) == 0.0 ==> tv(k) == 0.0) {
      ColumnTermAt(im, ew, wq, ib, ja, k);
      ColumnTermAt(im, ew, vq, ib, ja, k);
      WrapPeriod(im, k);
      var i := Wrap(im, k);
      assert wq(i, ja) >= 0.0;
      ProdNonNegative(ew.Part(One, ib, k), wq(i, ja));
      ProdConst(vq(i, ja));
      ProdConst(ew.Part(One, ib, k));
    }
    RangeSumNonNegative(lo, hi, tw);
    if RangeSum(lo, hi, tw) == 0.0 {
      RangeSumSame(lo, hi, tv, _ => 0.0);
      ZeroRange(lo, hi);
    }
  }

  /** Along one A row, a B column of weight 0 has weighted value 0. */
  ghost predicate Covered(c: Cuts, wq: (int, int) -> real, vq: (int, int) -> real, ib: int, ja: int)
    requires c.a.im >= 1
  {
    && ColumnField(c.a.im, c.ew, wq, ib)(ja) >= 0.0
    && (ColumnField(c.a.im, c.ew, wq, ib)(ja) == 0.0 ==> ColumnField(c.a.im, c.ew, vq, ib)(ja) == 0.0)
  }

  lemma PartsCovered(c: Cuts, wq: (int, int) -> real, vq: (int, int) -> real, ib: int, ja: int)
    requires c.Done() && WeightsCover(c, wq, vq) && 1 <= ib <= c.b.im && 1 <= ja <= c.a.jm
    requires ib < c.b.im || FirstEdgeWest(c.a, c.b)
    ensures c.a.im >= 1 && Covered(c, wq, vq, ib, ja)
  {
    hide Prod, EastWestDone, NorthSouthDone, FirstEdgeWest, ColumnField, ColumnTerm, Sweep.Part;
    var ew := c.ew;
    SweepLink(c.a, c.b, ew, ib);
    EastWestProper(c.a, c.b, ew);
    ColumnFieldIs(c.a.im, ew, wq, ib, ja);
    ColumnFieldIs(c.a.im, ew, vq, ib, ja);
    forall k | ew.min[ib] <= k < ew.max[ib] + 1 ensures ew.Part(One, ib, k) >= 0.0 {
      if ib < c.b.im { EarlierParts(c.a, c.b, ew, ib, k); }
    }
    TermsCovered(c, wq, vq, ib, ja, ew.min[ib], ew.max[ib] + 1);
  }

  lemma LastCovered(c: Cuts, wq: (int, int) -> real, vq: (int, int) -> real, ja: int)
    requires c.Done() && WeightsCover(c, wq, vq) && 1 <= ja <= c.a.jm
    requires !FirstEdgeWest(c.a, c.b) && CoversAreProper(c.a, c.b)
    ensures c.a.im >= 1 && Covered(c, wq, vq, c.b.im, ja)
  {
    hide Prod, EastWestDone, NorthSouthDone, FirstEdgeWest, ColumnField, ColumnTerm, Sweep.Part, FirstNet, Times;
    var a, b, ew, n := c.a, c.b, c.ew, c.b.im;
    LastCopy(a, b, ew);
    FirstNetSign(a, b, ew);
    LastColumnField(a, b, ew, wq, ja);
    LastColumnField(a, b, ew, vq, ja);
    forall k | OtherFrom(b, ew) <= k < 1 + a.im ensures ew.Part(One, n, k) >= 0.0 {
      EarlierParts(a, b, ew, n, k);
    }
    TermsCovered(c, wq, vq, n, ja, OtherFrom(b, ew), 1 + a.im);
    assert wq(1, ja) >= 0.0;
    ProdNonNegative(FirstNet(a, b, ew), wq(1, ja));
    ProdConst(FirstNet(a, b, ew));
    ProdConst(vq(1, ja));
  }

  /** A B cell of weight 0 covers only A cells of weight 0, or parts of them that cancel. */
  lemma EmptyCell(c: Cuts, wq: (int, int) -> real, vq: (int, int) -> real, ib: int, jb: int)
    requires c.Done() && WeightsCover(c, wq, vq) && 1 <= ib <= c.b.im && 1 <= jb <= c.b.jm
    requires ib < c.b.im || CoversAreProper(c.a, c.b)
    ensures Missing(c, wq, vq)(ib, jb) == 0.0
  {
    hide Prod, EastWestDone, NorthSouthDone, CoversAreProper, ColumnField, CellIntegral, RowWidth, Sweep.Part,
      WeightsCover;
    CellRanges(c, ib, jb);
    var im, ew, ea, ns := c.a.im, c.ew, c.ea, c.ns;
    var lo, hi := ns.min[jb], ns.max[jb] + 1;
    CellIntegralIs(im, ew, ea, ns, wq, ib, jb);
    CellIntegralIs(im, ew, ea, ns, vq, ib, jb);
    var tw, tv := RowTerm(im, ew, ea, ns, wq, ib, jb), RowTerm(im, ew, ea, ns, vq, ib, jb);
    forall ja | lo <= ja < hi ensures tw(ja) >= 0.0 && (tw(ja) == 0.0 ==> tv(ja) == 0.0) {
      NorthSouthPositive(ea, c.eb, ns, jb, ja);
      if ib < c.b.im || FirstEdgeWest(c.a, c.b) {
        PartsCovered(c, wq, vq, ib, ja);
      } else {
        LastCovered(c, wq, vq, ja);
      }
      ProdNonNegative(ns.Part(RowWidth(ea), jb, ja), ColumnField(im, ew, wq, ib)(ja));
      ProdConst(ns.Part(RowWidth(ea), jb, ja));
    }
    RangeSumNonNegative(lo, hi, tw);
    if c.Integral(wq, ib, jb) == 0.0 {
      RangeSumSame(lo, hi, tv, _ => 0.0);
      ZeroRange(lo, hi);
    }
  }

  ghost predicate NonNegativeWeights(c: Cuts, wtm: real, wtb: real, wta: seq<real>, a: seq<real>)
  {
    |wta| == |a| == Times(c.a.im, c.a.jm) && forall n :: 1 <= n <= |wta| ==> CellWeight(wtm, wtb, wta, n) >= 0.0
  }

  /** The integral over B of what regrid stored is the integral over A. */
  ghost predicate Conserved(c: Cuts, wtm: real, wtb: real, wta: seq<real>, a: seq<real>, b: seq<real>)
    requires |c.ea| > 0
  {
    var wq, vq := WeightField(c.a.im, wtm, wtb, wta), ValueField(c.a.im, wtm, wtb, wta, a);
    GridSum(c.b.im, c.b.jm, StoredIntegral(c, wq, b)) == TotalOverA(c.a.im, c.ea, vq)
  }

  /**
   Conservation: for non-negative weights, the area-weighted integral over B of what regrid stores equals the
   area-weighted integral over A, cells holding the missing-data value included.
   */
  lemma RegridConserves(c: Cuts, datmis: real, wtm: real, wtb: real, wta: seq<real>, a: seq<real>, b: seq<real>)
    requires c.Done() && CoversAreProper(c.a, c.b) && IsRegridded(c, datmis, wtm, wtb, wta, a, b)
    requires NonNegativeWeights(c, wtm, wtb, wta, a)
    ensures |c.ea| > 0 && Conserved(c, wtm, wtb, wta, a, b)
  {
    hide *;
    DoneSizes(c);
    var wq, vq := WeightField(c.a.im, wtm, wtb, wta), ValueField(c.a.im, wtm, wtb, wta, a);
    FieldsCover(c, wtm, wtb, wta, a);
    forall i, j | 1 <= i <= c.b.im && 1 <= j <= c.b.jm ensures Missing(c, wq, vq)(i, j) == 0.0 {
      EmptyCell(c, wq, vq, i, j);
    }
    GridSumZero(c.b.im, c.b.jm, Missing(c, wq, vq));
    RegridBalance(c, datmis, wtm, wtb, wta, a, b);
    ConservedIs(c, wtm, wtb, wta, a, b);
  }

  lemma ConservedIs(c: Cuts, wtm: real, wtb: real, wta: seq<real>, a: seq<real>, b: seq<real>)
    requires |c.ea| > 0
    ensures
      var wq, vq := WeightField(c.a.im, wtm, wtb, wta), ValueField(c.a.im, wtm, wtb, wta, a);
      Conserved(c, wtm, wtb, wta, a, b) <==>
      GridSum(c.b.im, c.b.jm, StoredIntegral(c, wq, b)) == TotalOverA(c.a.im, c.ea, vq)
  {
  }

  lemma FieldsCover(c: Cuts, wtm: real, wtb: real, wta: seq<real>, a: seq<real>)
    requires NonNegativeWeights(c, wtm, wtb, wta, a)
    ensures WeightsCover(c, WeightField(c.a.im, wtm, wtb, wta), ValueField(c.a.im, wtm, wtb, wta, a))
  {
    hide Prod, CellNumber, Times, CellWeight;
    forall i, j | 1 <= i <= c.a.im && 1 <= j <= c.a.jm
      ensures var n := CellNumber(c.a.im, i, j);
              CellWeight(wtm, wtb, wta, n) >= 0.0
              && (CellWeight(wtm, wtb, wta, n) == 0.0 ==> CellValue(wtm, wtb, wta, a, n) == 0.0)
    {
      CellNumberRange(c.a.im, c.a.jm, i, j);
      ProdConst(a[CellNumber(c.a.im, i, j) - 1]);
    }
  }

  // ---------------------------------------------------------------- exactly when regrid conserves

  /** Weights on A columns 1 and k only, and a field that is 1 on A column 1. */
  ghost predicate TwoColumns(c: Cuts, k: int, p: real, m: real, wq: (int, int) -> real, vq: (int, int) -> real)
  {
    forall i, j :: 1 <= i <= c.a.im && 1 <= j <= c.a.jm ==>
      && wq(i, j) == (if i == 1 then p else if i == k then m else 0.0)
      && vq(i, j) == if i == 1 then p else 0.0
  }

  lemma Cancels(f: real, p: real)
    ensures Prod(f, p) + Prod(p, -f) == 0.0
    ensures f < 0.0 && p > 0.0 ==> Prod(f, p) < 0.0
  {
  }

  /** Along an A row, these weights cancel in the last B column, but the weighted field does not. */
  lemma TwoColumnsRow(c: Cuts, k: int, wq: (int, int) -> real, vq: (int, int) -> real, ja: int)
    requires c.Done() && !FirstEdgeWest(c.a, c.b) && 1 <= ja <= c.a.jm && c.ew.HasCells(c.b.im)
    requires OtherFrom(c.b, c.ew) <= k <= c.a.im
    requires TwoColumns(c, k, c.ew.Part(One, c.b.im, k), -FirstNet(c.a, c.b, c.ew), wq, vq)
    ensures c.a.im >= 1 && ColumnField(c.a.im, c.ew, wq, c.b.im)(ja) == 0.0
    ensures ColumnField(c.a.im, c.ew, vq, c.b.im)(ja) == Prod(FirstNet(c.a, c.b, c.ew), c.ew.Part(One, c.b.im, k))
  {
    hide Prod, EastWestDone, NorthSouthDone, FirstEdgeWest, ColumnField, ColumnTerm, Sweep.Part, FirstNet, Wrap;
    var a, b, ew, n := c.a, c.b, c.ew, c.b.im;
    var net, p := FirstNet(a, b, ew), ew.Part(One, n, k);
    LastColumnField(a, b, ew, wq, ja);
    LastColumnField(a, b, ew, vq, ja);
    var tw, tv := ColumnTerm(a.im, ew, wq, n, ja), ColumnTerm(a.im, ew, vq, n, ja);
    forall i | OtherFrom(b, ew) <= i < 1 + a.im
      ensures tv(i) == 0.0 && tw(i) == if i == k then Prod(p, -net) else 0.0
    {
      WrapPeriod(a.im, i);
      ColumnTermAt(a.im, ew, wq, n, ja, i);
      ColumnTermAt(a.im, ew, vq, n, ja, i);
      ProdConst(ew.Part(One, n, i));
    }
    assert wq(1, ja) == p && vq(1, ja) == p;
    RangeSumPick(OtherFrom(b, ew), 1 + a.im, tw, k);
    RangeSumPick(OtherFrom(b, ew), 1 + a.im, tv, k);
    Cancels(net, p);
  }

  /** So the B cells of the last column have weight 0, and lose a negative amount. */
  lemma TwoColumnsCell(c: Cuts, k: int, wq: (int, int) -> real, vq: (int, int) -> real, jb: int)
    requires c.Done() && !FirstEdgeWest(c.a, c.b) && 1 <= jb <= c.b.jm && c.ew.HasCells(c.b.im)
    requires OtherFrom(c.b, c.ew) <= k <= c.a.im
    requires FirstNet(c.a, c.b, c.ew) < 0.0 && c.ew.Part(One, c.b.im, k) > 0.0
    requires TwoColumns(c, k, c.ew.Part(One, c.b.im, k), -FirstNet(c.a, c.b, c.ew), wq, vq)
    ensures Missing(c, wq, vq)(c.b.im, jb) < 0.0
  {
    hide Prod, EastWestDone, NorthSouthDone, FirstEdgeWest, ColumnField, Sweep.Part, FirstNet, RowWidth, Sweep.Row,
      TwoColumns;
    var n, ns, w := c.b.im, c.ns, RowWidth(c.ea);
    var v := Prod(FirstNet(c.a, c.b, c.ew), c.ew.Part(One, n, k));
    CellRanges(c, n, jb);
    forall ja | ns.min[jb] <= ja <= ns.max[jb]
      ensures ColumnField(c.a.im, c.ew, wq, n)(ja) == 0.0 && ColumnField(c.a.im, c.ew, vq, n)(ja) == v
    {
      TwoColumnsRow(c, k, wq, vq, ja);
    }
    RowSame(ns, w, ColumnField(c.a.im, c.ew, wq, n), _ => 0.0, jb);
    RowSame(ns, w, ColumnField(c.a.im, c.ew, vq, n), _ => v, jb);
    HntrOverlap.RowConst(ns, w, 0.0, jb);
    HntrOverlap.RowConst(ns, w, v, jb);
    RowExtent(c.ea, c.eb, ns, jb);
    HntrOverlap.ExtentPositive(c, jb);
    ProdConst(c.eb[jb] - c.eb[jb - 1]);
    Cancels(FirstNet(c.a, c.b, c.ew), c.ew.Part(One, n, k));
    Cancels(v, c.eb[jb] - c.eb[jb - 1]);
  }

  lemma {:induction false} NegativeSum(lo: int, hi: int, f: int -> real)
    requires lo < hi && forall k :: lo <= k < hi ==> f(k) < 0.0
    ensures RangeSum(lo, hi, f) < 0.0
    decreases hi - lo
  {
    if lo < hi - 1 { NegativeSum(lo, hi - 1, f); } else { RangeSumOne(lo, f); }
  }

  /** Only the last column loses, so the total loss is not 0. */
  lemma TwoColumnsTotal(c: Cuts, k: int, wq: (int, int) -> real, vq: (int, int) -> real)
    requires c.Done() && !FirstEdgeWest(c.a, c.b) && c.ew.HasCells(c.b.im) && OtherFrom(c.b, c.ew) <= k <= c.a.im
    requires FirstNet(c.a, c.b, c.ew) < 0.0 && c.ew.Part(One, c.b.im, k) > 0.0
    requires TwoColumns(c, k, c.ew.Part(One, c.b.im, k), -FirstNet(c.a, c.b, c.ew), wq, vq)
    ensures GridSum(c.b.im, c.b.jm, Missing(c, wq, vq)) < 0.0
  {
    hide Prod, EastWestDone, NorthSouthDone, FirstEdgeWest, CoversAreProper, Sweep.Part, FirstNet, Missing, Cuts.Done;
    DoneSizes(c);
    var n, f := c.b.im, Missing(c, wq, vq);
    assert WeightsCover(c, wq, vq);
    forall j | 1 <= j < c.b.jm + 1 ensures RangeSum(1, n + 1, Slice(f, j)) < 0.0 {
      TwoColumnsCell(c, k, wq, vq, j);
      forall i | 1 <= i < n ensures Slice(f, j)(i) == 0.0 {
        EmptyCell(c, wq, vq, i, j);
      }
      RangeSumPick(1, n + 1, Slice(f, j), n);
    }
    NegativeSum(1, c.b.jm + 1, j => RangeSum(1, n + 1, Slice(f, j)));
  }

  /** A field that depends on the column only, as regrid takes it. */
  ghost function ByColumn(a: HntrSpec, f: int -> real): (r: seq<real>)
    requires a.Valid()
    ensures |r| == Times(a.im, a.jm) && forall n :: 0 <= n < |r| ==> r[n] == f(Rem(n, a.im) + 1)
  {
    TimesPositive(a.im, a.jm);
    seq(Times(a.im, a.jm), n => f(Rem(n, a.im) + 1))
  }

  lemma ColumnFields(c: Cuts, k: int, p: real, m: real, wta: seq<real>, a: seq<real>)
    requires c.a.Valid() && p >= 0.0 && m >= 0.0
    requires wta == ByColumn(c.a, i => if i == 1 then p else if i == k then m else 0.0)
    requires a == ByColumn(c.a, i => if i == 1 then 1.0 else 0.0)
    ensures NonNegativeWeights(c, 1.0, 0.0, wta, a)
    ensures TwoColumns(c, k, p, m, WeightField(c.a.im, 1.0, 0.0, wta), ValueField(c.a.im, 1.0, 0.0, wta, a))
  {
    hide Prod, Times, Rem, Quot, CellNumber;
    var wq, vq := WeightField(c.a.im, 1.0, 0.0, wta), ValueField(c.a.im, 1.0, 0.0, wta, a);
    forall n | 1 <= n <= |wta| ensures CellWeight(1.0, 0.0, wta, n) == wta[n - 1] >= 0.0 {
      ProdConst(wta[n - 1]);
    }
    forall i, j | 1 <= i <= c.a.im && 1 <= j <= c.a.jm
      ensures wq(i, j) == (if i == 1 then p else if i == k then m else 0.0) && vq(i, j) == if i == 1 then p else 0.0
    {
      var n := CellNumber(c.a.im, i, j);
      CellNumberRange(c.a.im, c.a.jm, i, j);
      CellNumberInverse(c.a.im, i, j);
      assert wta[n - 1] == if i == 1 then p else if i == k then m else 0.0;
      ProdConst(wta[n - 1]);
    }
  }

  /** Where a net part is negative, some field with non-negative weights is not conserved. */
  lemma NegativePartLoses(c: Cuts, datmis: real) returns (wta: seq<real>, a: seq<real>, b: seq<real>)
    requires c.Done() && !CoversAreProper(c.a, c.b)
    ensures |c.ea| > 0 && c.b.im >= 1 && IsRegridded(c, datmis, 1.0, 0.0, wta, a, b)
    ensures NonNegativeWeights(c, 1.0, 0.0, wta, a) && !Conserved(c, 1.0, 0.0, wta, a, b)
  {
    hide Prod, EastWestDone, NorthSouthDone, Sweep.Part, FirstNet, Regridded, Times, GridSum, Conserved, TwoColumns,
      NonNegativeWeights, Cuts.Done, FirstEdgeWest;
    DoneSizes(c);
    var k := CoveredColumn(c.a, c.b, c.ew);
    var p, m := c.ew.Part(One, c.b.im, k), -FirstNet(c.a, c.b, c.ew);
    wta := ByColumn(c.a, i => if i == 1 then p else if i == k then m else 0.0);
    a := ByColumn(c.a, i => if i == 1 then 1.0 else 0.0);
    TimesPositive(c.b.im, c.b.jm);
    b := seq(Times(c.b.im, c.b.jm), n => Regridded(c, datmis, 1.0, 0.0, wta, a, n));
    ColumnFields(c, k, p, m, wta, a);
    TwoColumnsTotal(c, k, WeightField(c.a.im, 1.0, 0.0, wta), ValueField(c.a.im, 1.0, 0.0, wta, a));
    RegridBalance(c, datmis, 1.0, 0.0, wta, a, b);
    ConservedIs(c, 1.0, 0.0, wta, a, b);
  }

  /** regrid conserves every field with non-negative weights. */
  ghost predicate AlwaysConserves(c: Cuts, datmis: real)
    requires |c.ea| > 0 && c.b.im >= 1
  {
    forall wtm, wtb, wta, a, b ::
      IsRegridded(c, datmis, wtm, wtb, wta, a, b) && NonNegativeWeights(c, wtm, wtb, wta, a)
      ==> Conserved(c, wtm, wtb, wta, a, b)
  }

  /**
   regrid conserves every field with non-negative weights exactly if the first A edge does not lie east of the first B
   edge, or the grids are so small that this does no harm: (imA - 1) (imB - 1) <= 1.
   */
  lemma ConservesExactly(c: Cuts, datmis: real)
    requires c.Done()
    ensures |c.ea| > 0 && c.b.im >= 1
    ensures AlwaysConserves(c, datmis) <==> FirstEdgeWest(c.a, c.b) || Times(c.a.im - 1, c.b.im - 1) <= 1
  {
    hide IsRegridded, NonNegativeWeights, Conserved, FirstEdgeWest, Times, Cuts.Done;
    DoneSizes(c);
    if CoversAreProper(c.a, c.b) {
      forall wtm, wtb, wta, a, b |
          IsRegridded(c, datmis, wtm, wtb, wta, a, b) && NonNegativeWeights(c, wtm, wtb, wta, a)
        ensures Conserved(c, wtm, wtb, wta, a, b)
      {
        RegridConserves(c, datmis, wtm, wtb, wta, a, b);
      }
    } else {
      var wta, a, b := NegativePartLoses(c, datmis);
    }
  }

  // ---------------------------------------------------------------- a concrete loss

  /** Two A cells, shifted by more than a turn, cut by four B cells; one row from pole to pole. */
  ghost predicate LongOffset(c: Cuts)
  {
    && c.Done() && c.a.im == 2 && c.a.jm == 1 && c.a.offi == 2.25 && c.b.im == 4 && c.b.jm == 1 && c.b.offi == 0.0
  }

  lemma LongOffsetEdges(a: HntrSpec, b: HntrSpec, k: int)
    requires a.im == 2 && a.offi == 2.25 && b.im == 4 && b.offi == 0.0
    ensures EdgeA(a, b, k) == 4.0 * (k as real) + 1.0 && EdgeB(a, b, k) == 2.0 * (k as real)
  {
  }

  lemma LongOffsetCells(c: Cuts)
    requires LongOffset(c)
    ensures c.ew.HasCells(4) && |c.ew.min| == 5
  {
  }

  lemma LongOffsetWest(c: Cuts, j: int)
    requires LongOffset(c) && 1 <= j <= 4
    ensures c.ew.HasCells(4) && c.ew.min[j] == (if j <= 3 then 1 else 2)
    ensures c.ew.low[j] == if j == 1 then -0.25 else if j == 2 then 0.25 else if j == 3 then 0.75 else 0.25
  {
    hide EdgeA, EdgeB;
    var k := c.ew.min[j];
    assert WesternCut(c.a, c.b, c.ew, j);
    LongOffsetEdges(c.a, c.b, k);
    LongOffsetEdges(c.a, c.b, k - 1);
    LongOffsetEdges(c.a, c.b, j - 1);
  }

  lemma LongOffsetEast(c: Cuts, j: int)
    requires LongOffset(c) && 1 <= j <= 4
    ensures c.ew.HasCells(4) && c.ew.max[j] == (if j <= 2 then 1 else if j == 3 then 2 else 3)
    ensures c.ew.high[j] == if j == 1 then 0.75 else if j == 2 then 0.25 else if j == 3 then 0.75 else 1.25
  {
    hide EdgeA, EdgeB;
    if j < 4 {
      var k := c.ew.max[j];
      assert EasternCut(c.a, c.b, c.ew, j);
      LongOffsetEdges(c.a, c.b, k);
      LongOffsetEdges(c.a, c.b, k - 1);
      LongOffsetEdges(c.a, c.b, j);
    } else {
      var k := c.ew.max[4] - 2;
      LongOffsetEdges(c.a, c.b, k);
      LongOffsetEdges(c.a, c.b, k - 1);
      LongOffsetEdges(c.a, c.b, 0);
    }
  }

  /** One row: the integral over a B cell is the sine extent of the row times the integral along it. */
  lemma LongOffsetRow(c: Cuts, q: (int, int) -> real, j: int)
    requires LongOffset(c) && 1 <= j <= 4
    ensures c.ew.HasCells(4)
    ensures c.Integral(q, j, 1) == 2.0 * RangeSum(c.ew.min[j], c.ew.max[j] + 1, ColumnTerm(2, c.ew, q, j, 1))
  {
    hide Prod, EastWestDone, ColumnField, Sweep.Part;
    LongOffsetCells(c);
    CellRanges(c, j, 1);
    ColumnFieldIs(2, c.ew, q, j, 1);
    CellIntegralIs(2, c.ew, c.ea, c.ns, q, j, 1);
    assert c.ns.min[1] == c.ns.max[1] == 1;
    RangeSumOne(1, RowTerm(2, c.ew, c.ea, c.ns, q, j, 1));
    RowHeight(c);
    TimesTwo(ColumnField(2, c.ew, q, j)(1));
  }

  lemma RowHeight(c: Cuts)
    requires LongOffset(c)
    ensures |c.ea| > 0 && c.ns.HasCells(|c.ns.min| - 1) && 1 < |c.ns.min| && c.ns.Part(RowWidth(c.ea), 1, 1) == 2.0
  {
    hide EastWestDone;
  }

  lemma TimesTwo(x: real)
    ensures Prod(2.0, x) == 2.0 * x
  {
  }

  lemma LongOffsetIntegrals(c: Cuts, q: (int, int) -> real)
    requires LongOffset(c)
    ensures c.Integral(q, 1, 1) == q(1, 1) && c.Integral(q, 2, 1) == q(1, 1)
    ensures c.Integral(q, 3, 1) == 0.5 * q(1, 1) + 0.5 * q(2, 1)
    ensures c.Integral(q, 4, 1) == 1.5 * q(2, 1) - 0.5 * q(1, 1)
  {
    hide EastWestDone, NorthSouthDone, Cuts.Integral, ColumnTerm, Cuts.Done;
    LongOffsetCells(c);
    forall j | 1 <= j <= 4
      ensures c.Integral(q, j, 1) == 2.0 * RangeSum(c.ew.min[j], c.ew.max[j] + 1, ColumnTerm(2, c.ew, q, j, 1))
    {
      LongOffsetRow(c, q, j);
    }
    forall j | 1 <= j <= 4
      ensures c.ew.min[j] == (if j <= 3 then 1 else 2) && c.ew.max[j] == (if j <= 2 then 1 else if j == 3 then 2 else 3)
      ensures c.ew.low[j] == if j == 1 then -0.25 else if j == 2 then 0.25 else if j == 3 then 0.75 else 0.25
      ensures c.ew.high[j] == if j == 1 then 0.75 else if j == 2 then 0.25 else if j == 3 then 0.75 else 1.25
    {
      LongOffsetWest(c, j);
      LongOffsetEast(c, j);
    }
    var t1, t2 := ColumnTerm(2, c.ew, q, 1, 1), ColumnTerm(2, c.ew, q, 2, 1);
    var t3, t4 := ColumnTerm(2, c.ew, q, 3, 1), ColumnTerm(2, c.ew, q, 4, 1);
    RangeSumOne(1, t1);
    RangeSumOne(1, t2);
    RangeSumOne(1, t3);
    RangeSumLast(1, 2, t3);
    RangeSumOne(2, t4);
    RangeSumLast(2, 3, t4);
    ColumnTermAt(2, c.ew, q, 1, 1, 1);
    ColumnTermAt(2, c.ew, q, 2, 1, 1);
    ColumnTermAt(2, c.ew, q, 3, 1, 1);
    ColumnTermAt(2, c.ew, q, 3, 1, 2);
    ColumnTermAt(2, c.ew, q, 4, 1, 2);
    ColumnTermAt(2, c.ew, q, 4, 1, 3);
    assert Wrap(2, 1) == 1 && Wrap(2, 2) == 2 && Wrap(2, 3) == 1;
  }

  /** The fields that regrid integrates for weights 3 and 1. */
  lemma ThreeAndOne(a: seq<real>)
    requires |a| == 2
    ensures var wq, vq := WeightField(2, 1.0, 0.0, [3.0, 1.0]), ValueField(2, 1.0, 0.0, [3.0, 1.0], a);
            wq(1, 1) == 3.0 && wq(2, 1) == 1.0 && vq(1, 1) == 3.0 * a[0] && vq(2, 1) == a[1]
  {
  }

  lemma OneRowOfFour(f: (int, int) -> real)
    ensures GridSum(4, 1, f) == f(1, 1) + f(2, 1) + f(3, 1) + f(4, 1)
  {
    var g := Slice(f, 1);
    RangeSumOne(1, g);
    RangeSumLast(1, 2, g);
    RangeSumLast(1, 3, g);
    RangeSumLast(1, 4, g);
    RangeSumOne(1, j => RangeSum(1, 5, Slice(f, j)));
    RangeSumSame(1, 2, j => RangeSum(1, 4 + 1, Slice(f, j)), j => RangeSum(1, 5, Slice(f, j)));
  }

  lemma MissingIs(c: Cuts, wq: (int, int) -> real, vq: (int, int) -> real, i: int, j: int)
    ensures Missing(c, wq, vq)(i, j) == if c.Integral(wq, i, j) == 0.0 then c.Integral(vq, i, j) else 0.0
  {
  }

  /** Only the last B cell loses, because its weight is 3 (-1/4) + 3/4 = 0. */
  lemma LongOffsetMissing(c: Cuts, a: seq<real>)
    requires LongOffset(c) && |a| == 2
    ensures var wq, vq := WeightField(2, 1.0, 0.0, [3.0, 1.0]), ValueField(2, 1.0, 0.0, [3.0, 1.0], a);
            GridSum(4, 1, Missing(c, wq, vq)) == 1.5 * (a[1] - a[0])
  {
    hide *;
    var wq, vq := WeightField(2, 1.0, 0.0, [3.0, 1.0]), ValueField(2, 1.0, 0.0, [3.0, 1.0], a);
    ThreeAndOne(a);
    LongOffsetIntegrals(c, wq);
    LongOffsetIntegrals(c, vq);
    MissingIs(c, wq, vq, 1, 1);
    MissingIs(c, wq, vq, 2, 1);
    MissingIs(c, wq, vq, 3, 1);
    MissingIs(c, wq, vq, 4, 1);
    OneRowOfFour(Missing(c, wq, vq));
  }

  /**
   An A offset of more than a turn breaks conservation, even for positive weights: with weights 3 and 1 the last B cell
   has weight 0 and holds the missing-data value.  Nothing is lost only if A is constant.
   */
  lemma LongOffsetLoses(c: Cuts, datmis: real, a: seq<real>, b: seq<real>)
    requires LongOffset(c) && |a| == 2 && IsRegridded(c, datmis, 1.0, 0.0, [3.0, 1.0], a, b)
    ensures !CoversAreProper(c.a, c.b) && |c.ea| > 0
    ensures Conserved(c, 1.0, 0.0, [3.0, 1.0], a, b) <==> a[0] == a[1]
  {
    hide *;
    LongOffsetFacts(c);
    LongOffsetMissing(c, a);
    RegridBalance(c, datmis, 1.0, 0.0, [3.0, 1.0], a, b);
    ConservedIs(c, 1.0, 0.0, [3.0, 1.0], a, b);
  }

  lemma LongOffsetFacts(c: Cuts)
    requires LongOffset(c)
    ensures c.Done() && |c.ea| > 0 && c.a.im == 2 && c.b.im == 4 && c.b.jm == 1 && !CoversAreProper(c.a, c.b)
  {
    hide EastWestDone, NorthSouthDone, EdgeA, EdgeB;
    LongOffsetEdges(c.a, c.b, 0);
  }
}
