/**
 The corrected elevation field (compute_E1vE0c in slib/icebin/e1ve0.cpp), elevation cell by elevation cell, told by
 what the field is worth at the exchange cells before and after the step.
 */
module CorrectionValues {
  import opened Vectors
  import opened Sums
  import opened Sparse
  import opened ExchangeGrid
  import opened RegridMatrices
  import opened E1vE0
  import opened CouplingRuns

  // ---------------------------------------------------------------- any matrices

  /** X1' (XvE0 - XvE1) x at elevation cell e. */
  ghost function SheetGain(X1: Weighted, X0: Weighted, nE: nat, x: seq<real>, e: nat): real
    requires Fits(X1, nE) && Fits(X0, nE) && |X1.wM| == |X0.wM| && |x| == nE
  {
    Dot(Minus(Exchange(X0, x), Exchange(X1, x)), Apply(X1.M, Unit(nE, e), |X1.wM|))
  }

  ghost function Gained(X1s: seq<Weighted>, X0s: seq<Weighted>, nE: nat, x: seq<real>, e: nat, n: nat): real
    requires Paired(X1s, X0s, nE) && |x| == nE && n <= |X1s|
  {
    if n == 0 then 0.0
    else Gained(X1s, X0s, nE, x, e, n - 1) + SheetGain(X1s[n - 1], X0s[n - 1], nE, x, e)
  }

  lemma {:induction false} UnscaledGains(X1s: seq<Weighted>, X0s: seq<Weighted>, nE: nat, x: seq<real>, e: nat, n: nat)
    requires Paired(X1s, X0s, nE) && |x| == nE && e < nE && n <= |X1s|
    ensures InBounds(Unscaled(X1s, X0s, nE, n), nE, nE)
    ensures Bilin(Unscaled(X1s, X0s, nE, n), Unit(nE, e), x) == Gained(X1s, X0s, nE, x, e, n)
  {
    hide Prod, Bilin, Apply, Exchange, LocalCorrection, Dot, InBounds;
    UnscaledInBounds(X1s, X0s, nE, n);
    if n == 0 {
      BilinEmpty(Unit(nE, e), x);
    } else {
      UnscaledGains(X1s, X0s, nE, x, e, n - 1);
      FitsEntries(X1s, X0s, nE, n - 1);
      LocalForm(X1s[n - 1], X0s[n - 1], nE, Unit(nE, e), x);
      BilinConcat(Unscaled(X1s, X0s, nE, n - 1), LocalCorrection(X1s[n - 1], X0s[n - 1]), Unit(nE, e), x);
    }
  }

  lemma PairedWeightsFit(X1s: seq<Weighted>, X0s: seq<Weighted>, nE: nat)
    requires Paired(X1s, X0s, nE)
    ensures forall k :: 0 <= k < |X1s| ==> |X1s[k].Mw| == nE
  {
  }

  lemma TimesRecip(w: real, g: real)
    requires w != 0.0
    ensures Prod(w, Prod(Recip(w), g)) == g
  {
    hide Prod;
    ProdAssoc(w, 1.0 / w, g);
    ProdInverse(w);
    ProdConst(g);
  }

  /** The weight of an elevation cell, times what the correction adds there, is what all sheets gain. */
  lemma CorrectedGains(X1s: seq<Weighted>, X0s: seq<Weighted>, nE: nat, x: seq<real>, e: nat)
    requires Paired(X1s, X0s, nE) && |x| == nE && e < nE
    ensures forall k :: 0 <= k < |X1s| ==> |X1s[k].Mw| == nE
    ensures var w := TotalMw(X1s, nE, |X1s|)[e];
      w != 0.0 ==> Prod(w, Corrected(X1s, X0s, nE, x)[e] - x[e]) == Gained(X1s, X0s, nE, x, e, |X1s|)
  {
    hide Prod, Bilin, Apply, Unscaled, TotalMw, Gained, Paired, Recip;
    PairedWeightsFit(X1s, X0s, nE);
    var w, U := TotalMw(X1s, nE, |X1s|), Unscaled(X1s, X0s, nE, |X1s|);
    UnscaledGains(X1s, X0s, nE, x, e, |X1s|);
    CorrectionInBounds(X1s, X0s, nE);
    ApplyScaleRows(Inverse(w), U, x, nE, e);
    ApplyElement(U, x, nE, e);
    if w[e] != 0.0 {
      TimesRecip(w[e], Gained(X1s, X0s, nE, x, e, |X1s|));
    }
  }

  // ---------------------------------------------------------------- the coupler's matrices

  /** A field on the elevation grid as XuE sees it. */
  function Weighed(ratio: seq<real>, correctA: bool, x: seq<real>): (r: seq<real>)
    requires |ratio| == |x|
    ensures |r| == |x|
  {
    if correctA then Hadamard(ratio, x) else x
  }

  /** The exchange matrices of one sheet at two steps; its ice may have changed in extent and elevation. */
  ghost predicate CoupledSheet(s1: Sheet, s0: Sheet, X1: Weighted, X0: Weighted, ratio: seq<real>, correctA: bool,
                               nE: nat)
  {
    && s1.Valid() && s1.AllInBounds() && s0.Valid() && s0.AllInBounds() && SameGeometry(s1, s0)
    && |ratio| == s1.Extent(E) == s0.Extent(E) == nE
    && X1 == ExchangeMatrix(s1, ratio, correctA) && X0 == ExchangeMatrix(s0, ratio, correctA)
  }

  lemma ApplyScaleCols(U: Triplets, ratio: seq<real>, x: seq<real>, m: nat)
    requires InBounds(U, m, |x|) && |ratio| == |x|
    ensures InBounds(ScaleCols(U, ratio), m, |x|)
    ensures Apply(ScaleCols(U, ratio), x, m) == Apply(U, Hadamard(ratio, x), m)
  {
    hide Prod, Bilin, Apply;
    forall i: nat | i < m ensures Apply(ScaleCols(U, ratio), x, m)[i] == Apply(U, Hadamard(ratio, x), m)[i] {
      ApplyElement(ScaleCols(U, ratio), x, m, i);
      ApplyElement(U, Hadamard(ratio, x), m, i);
      BilinScaleCols(U, ratio, Unit(m, i), x);
    }
  }

  lemma ExchangeApplies(s: Sheet, ratio: seq<real>, correctA: bool, x: seq<real>)
    requires s.Valid() && s.AllInBounds() && |ratio| == |x| == s.Extent(E)
    ensures var X := ExchangeMatrix(s, ratio, correctA);
      && InBounds(X.M, s.nX, |x|) && |X.wM| == s.nX && |X.Mw| == |x|
      && Apply(X.M, x, s.nX) == Scatter(s, CellTotal(s, E, Weighed(ratio, correctA, x)), |s.cells|)
  {
    hide Prod, Apply, Ur, CellTotal, Scatter, Sheet.Valid, Sheet.AllInBounds;
    UrInBounds(s, E, |s.cells|);
    ApplyUr(s, E, Weighed(ratio, correctA, x), |s.cells|);
    if correctA {
      ApplyScaleCols(Ur(s, E, |s.cells|), ratio, x, s.nX);
    }
  }

  lemma WeightOfCell(s: Sheet, ratio: seq<real>, correctA: bool, k: nat)
    requires s.Valid() && s.AllInBounds() && |ratio| == s.Extent(E) && k < |s.cells|
    ensures var w := ExchangeMatrix(s, ratio, correctA).wM;
            s.cells[k].iX < |w| && w[s.cells[k].iX] == CellArea(s, k)
  {
    hide Prod, Ur, Apply, CellMean, Scatter, CellArea, CellTotal, Sheet.Valid, Sheet.AllInBounds;
    var o := Ones(s.Extent(E));
    CellInRange(s, k);
    UrInBounds(s, E, |s.cells|);
    ApplyUr(s, E, o, |s.cells|);
    ScatterAt(s, CellTotal(s, E, o), |s.cells|, k);
    UnitTotal(s, k);
  }

  lemma UnitTotal(s: Sheet, k: nat)
    requires s.Valid() && s.AllInBounds() && k < |s.cells|
    ensures CellTotal(s, E, Ones(s.Extent(E)))(k) == CellArea(s, k)
  {
    hide Prod, CellMean, Sheet.Valid, Sheet.AllInBounds;
    ShareSum(s, E, k);
    ProdConst(CellArea(s, k));
    ProdConst(CellMean(s, E, Ones(s.Extent(E)), k));
  }

  lemma RecipTimes(w: real, g: real)
    requires w != 0.0
    ensures Prod(Recip(w), Prod(w, g)) == g
  {
    hide Prod;
    TimesRecip(w, g);
    ProdAssoc(w, 1.0 / w, g);
    ProdAssoc(1.0 / w, w, g);
    ProdComm(w, 1.0 / w);
  }

  /** XvE x at an exchange cell is what x is worth there, and 0 outside the ice. */
  lemma ExchangeValue(s: Sheet, ratio: seq<real>, correctA: bool, x: seq<real>, k: nat)
    requires s.Valid() && s.AllInBounds() && |ratio| == |x| == s.Extent(E) && k < |s.cells|
    ensures var X := ExchangeMatrix(s, ratio, correctA);
      && InBounds(X.M, |X.wM|, |x|) && s.cells[k].iX < |X.wM|
      && Exchange(X, x)[s.cells[k].iX] == CellMean(s, E, Weighed(ratio, correctA, x), k)
  {
    hide Prod, Apply, CellMean, Recip, ExchangeMatrix, Scatter, Weighed, Sheet.Valid, Sheet.AllInBounds;
    var X, v, i := ExchangeMatrix(s, ratio, correctA), Weighed(ratio, correctA, x), s.cells[k].iX;
    CellInRange(s, k);
    ExchangeApplies(s, ratio, correctA, x);
    WeightOfCell(s, ratio, correctA, k);
    ScatterAt(s, CellTotal(s, E, v), |s.cells|, k);
    ApplyScaleRows(Inverse(X.wM), X.M, x, s.nX, i);
    if s.Unmasked(s.cells[k]) {
      RecipTimes(CellArea(s, k), CellMean(s, E, v, k));
    } else {
      MaskedMean(s, v, k);
      ProdConst(CellArea(s, k));
      ProdConst(Recip(X.wM[i]));
    }
  }

  lemma MaskedMean(s: Sheet, v: seq<real>, k: nat)
    requires s.Valid() && s.AllInBounds() && |v| == s.Extent(E) && k < |s.cells| && !s.Unmasked(s.cells[k])
    ensures CellMean(s, E, v, k) == 0.0
  {
  }

  /**
   What an exchange cell of one sheet adds at elevation cell e: its area, times the share that e has in it now, times
   how much the field was worth there before the step beyond what it is worth now.
   */
  ghost function MovedTerm(s1: Sheet, s0: Sheet, ratio: seq<real>, correctA: bool, x: seq<real>, e: nat): int -> real
    requires s1.Valid() && s1.AllInBounds() && s0.Valid() && s0.AllInBounds()
    requires |ratio| == |x| == s1.Extent(E) == s0.Extent(E)
  {
    k => Prod(CellMean(s0, E, Weighed(ratio, correctA, x), k) - CellMean(s1, E, Weighed(ratio, correctA, x), k),
              Prod(CellArea(s1, k), CellMean(s1, E, Weighed(ratio, correctA, Unit(|x|, e)), k)))
  }

  ghost function Moved(s1: Sheet, s0: Sheet, ratio: seq<real>, correctA: bool, x: seq<real>, e: nat): real
    requires s1.Valid() && s1.AllInBounds() && s0.Valid() && s0.AllInBounds()
    requires |ratio| == |x| == s1.Extent(E) == s0.Extent(E)
  {
    RangeSum(0, |s1.cells|, MovedTerm(s1, s0, ratio, correctA, x, e))
  }

  lemma SheetGainIs(s1: Sheet, s0: Sheet, X1: Weighted, X0: Weighted, ratio: seq<real>, correctA: bool, nE: nat,
                    x: seq<real>, e: nat)
    requires CoupledSheet(s1, s0, X1, X0, ratio, correctA, nE) && |x| == nE && e < nE
    ensures Fits(X1, nE) && Fits(X0, nE) && |X1.wM| == |X0.wM|
    ensures SheetGain(X1, X0, nE, x, e) == Moved(s1, s0, ratio, correctA, x, e)
  {
    hide Prod, Apply, CellMean, Exchange, ExchangeMatrix, Scatter, CellArea, Weighed, Dot, Sheet.Valid,
      Sheet.AllInBounds;
    var u, n := Unit(nE, e), |s1.cells|;
    ExchangeApplies(s1, ratio, correctA, u);
    ExchangeApplies(s0, ratio, correctA, u);
    var v := Minus(Exchange(X0, x), Exchange(X1, x));
    var f := CellTotal(s1, E, Weighed(ratio, correctA, u));
    forall k | 0 <= k < n
      ensures s1.cells[k].iX < |v|
      ensures MovedTerm(s1, s0, ratio, correctA, x, e)(k) == Prod(v[s1.cells[k].iX], f(k))
    {
      CellInRange(s1, k);
      ExchangeValue(s1, ratio, correctA, x, k);
      ExchangeValue(s0, ratio, correctA, x, k);
    }
    DotScatter(s1, f, n, v, MovedTerm(s1, s0, ratio, correctA, x, e));
  }

  ghost predicate CoupledStep(s1s: seq<Sheet>, s0s: seq<Sheet>, X1s: seq<Weighted>, X0s: seq<Weighted>,
                              ratios: seq<seq<real>>, correctA: bool, nE: nat)
  {
    && |s1s| == |s0s| == |X1s| == |X0s| == |ratios|
    && forall k :: 0 <= k < |s1s| ==> CoupledSheet(s1s[k], s0s[k], X1s[k], X0s[k], ratios[k], correctA, nE)
  }

  ghost function AllMoved(s1s: seq<Sheet>, s0s: seq<Sheet>, X1s: seq<Weighted>, X0s: seq<Weighted>,
                          ratios: seq<seq<real>>, correctA: bool, nE: nat, x: seq<real>, e: nat, n: nat): real
    requires CoupledStep(s1s, s0s, X1s, X0s, ratios, correctA, nE) && |x| == nE && n <= |s1s|
  {
    if n == 0 then 0.0
    else
      AllMoved(s1s, s0s, X1s, X0s, ratios, correctA, nE, x, e, n - 1)
      + Moved(s1s[n - 1], s0s[n - 1], ratios[n - 1], correctA, x, e)
  }

  lemma CoupledPairs(s1s: seq<Sheet>, s0s: seq<Sheet>, X1s: seq<Weighted>, X0s: seq<Weighted>, ratios: seq<seq<real>>,
                     correctA: bool, nE: nat)
    requires CoupledStep(s1s, s0s, X1s, X0s, ratios, correctA, nE)
    ensures Paired(X1s, X0s, nE)
  {
    hide Sheet.Valid, Sheet.AllInBounds, ExchangeMatrix, Fits;
    forall k | 0 <= k < |s1s| ensures Fits(X1s[k], nE) && Fits(X0s[k], nE) && |X1s[k].wM| == |X0s[k].wM| {
      CoupledFits(s1s[k], s0s[k], X1s[k], X0s[k], ratios[k], correctA, nE);
    }
  }

  lemma CoupledFits(s1: Sheet, s0: Sheet, X1: Weighted, X0: Weighted, ratio: seq<real>, correctA: bool, nE: nat)
    requires CoupledSheet(s1, s0, X1, X0, ratio, correctA, nE)
    ensures Fits(X1, nE) && Fits(X0, nE) && |X1.wM| == |X0.wM|
  {
    hide Sheet.Valid, Sheet.AllInBounds, ExchangeMatrix, Apply, Scatter;
    ExchangeApplies(s1, ratio, correctA, Ones(nE));
    ExchangeApplies(s0, ratio, correctA, Ones(nE));
  }

  lemma {:induction false} GainsAreMoved(s1s: seq<Sheet>, s0s: seq<Sheet>, X1s: seq<Weighted>, X0s: seq<Weighted>,
                                         ratios: seq<seq<real>>, correctA: bool, nE: nat, x: seq<real>, e: nat, n: nat)
    requires CoupledStep(s1s, s0s, X1s, X0s, ratios, correctA, nE) && |x| == nE && e < nE && n <= |s1s|
    requires Paired(X1s, X0s, nE)
    ensures Gained(X1s, X0s, nE, x, e, n) == AllMoved(s1s, s0s, X1s, X0s, ratios, correctA, nE, x, e, n)
  {
    hide CoupledSheet, SheetGain, Moved, Fits;
    if n > 0 {
      GainsAreMoved(s1s, s0s, X1s, X0s, ratios, correctA, nE, x, e, n - 1);
      SheetGainIs(s1s[n - 1], s0s[n - 1], X1s[n - 1], X0s[n - 1], ratios[n - 1], correctA, nE, x, e);
    }
  }

  /**
   The corrected field at an elevation cell, for ice that moves, grows or retreats: the weight of the cell, times what
   the correction adds there, sums over the exchange cells of all sheets how much the field was worth there before the
   step beyond what it is worth now, each counted with its area and with the share that the elevation cell has in it.
   */
  lemma CorrectedValue(s1s: seq<Sheet>, s0s: seq<Sheet>, X1s: seq<Weighted>, X0s: seq<Weighted>,
                       ratios: seq<seq<real>>, correctA: bool, nE: nat, x: seq<real>, e: nat)
    requires CoupledStep(s1s, s0s, X1s, X0s, ratios, correctA, nE) && |x| == nE && e < nE
    ensures Paired(X1s, X0s, nE) && forall k :: 0 <= k < |X1s| ==> |X1s[k].Mw| == nE
    ensures var w := TotalMw(X1s, nE, |X1s|)[e];
      w != 0.0 ==>
        Prod(w, Corrected(X1s, X0s, nE, x)[e] - x[e])
        == AllMoved(s1s, s0s, X1s, X0s, ratios, correctA, nE, x, e, |s1s|)
  {
    hide *;
    CoupledPairs(s1s, s0s, X1s, X0s, ratios, correctA, nE);
    CorrectedGains(X1s, X0s, nE, x, e);
    CoupledSizes(s1s, s0s, X1s, X0s, ratios, correctA, nE);
    GainsAreMoved(s1s, s0s, X1s, X0s, ratios, correctA, nE, x, e, |s1s|);
  }

  lemma CoupledSizes(s1s: seq<Sheet>, s0s: seq<Sheet>, X1s: seq<Weighted>, X0s: seq<Weighted>, ratios: seq<seq<real>>,
                     correctA: bool, nE: nat)
    requires CoupledStep(s1s, s0s, X1s, X0s, ratios, correctA, nE)
    ensures |s1s| == |X1s|
  {
  }
}
