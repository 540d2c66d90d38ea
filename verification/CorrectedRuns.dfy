/**
 Coupling with correctA, as slib/icebin/IceCoupler.cpp asks for it: the exchange matrices carry area ratios, their
 stored row weights are not their row sums, and the total of the elevation field is kept exactly under a condition on
 the areas.
 */
module CorrectedRuns {
  import opened Wrappers
  import Ints
  import opened Vectors
  import opened Sums
  import opened Sparse
  import opened Indexing
  import opened VerticalInterp
  import opened ExchangeGrid
  import opened RegridMatrices
  import opened RegridProperties
  import opened AreaRatios
  import opened E1vE0
  import opened CouplingRuns

  // ---------------------------------------------------------------- matrices that carry ratios

  /** Every entry joins an exchange cell and an elevation cell of the same ratio, and scales the row sums by it. */
  ghost predicate CarriesRatio(X: Weighted, ratio: seq<real>, z: seq<real>)
  {
    && InBounds(X.M, |X.wM|, |X.Mw|) && |z| == |X.wM| && |ratio| == |X.Mw|
    && (forall k :: 0 <= k < |X.M| ==> z[X.M[k].i] == ratio[X.M[k].j])
    && RowSums(X.M, |X.wM|, |X.Mw|) == Hadamard(z, X.wM)
  }

  /** z - 1 */
  ghost function LessOne(z: seq<real>): (r: seq<real>)
    ensures |r| == |z| && forall k :: 0 <= k < |z| ==> r[k] == z[k] - 1.0
  {
    Minus(z, Ones(|z|))
  }

  /** A factor by rows that depends on the ratio only is the same factor by columns. */
  lemma {:induction false} RowsToColumns(M: Triplets, z: seq<real>, ratio: seq<real>, x: seq<real>)
    requires InBounds(M, |z|, |x|) && |ratio| == |x|
    requires forall k :: 0 <= k < |M| ==> z[M[k].i] == ratio[M[k].j]
    ensures Bilin(M, LessOne(z), x) == Bilin(M, Ones(|z|), Hadamard(LessOne(ratio), x))
  {
    hide Prod;
    if |M| > 0 {
      var e := M[|M| - 1];
      RowsToColumns(M[..|M| - 1], z, ratio, x);
      ProdConst(Prod(e.v, Prod(ratio[e.j] - 1.0, x[e.j])));
      ProdAssoc(e.v, ratio[e.j] - 1.0, x[e.j]);
      ProdComm(e.v, ratio[e.j] - 1.0);
      ProdAssoc(ratio[e.j] - 1.0, e.v, x[e.j]);
    }
  }

  /** Exchange cell values, weighted by what the ratios add to the row sums, total like the class weights. */
  lemma ExcessTotal(X: Weighted, ratio: seq<real>, z: seq<real>, x: seq<real>)
    requires CarriesRatio(X, ratio, z) && OwnColumns(X) && RowsScalable(X.M, X.wM) && |x| == |X.Mw|
    ensures Dot(Hadamard(LessOne(z), X.wM), Exchange(X, x)) == Dot(Hadamard(LessOne(ratio), X.Mw), x)
  {
    hide Prod, Bilin, Apply, Inverse, RowSums, ColSums, LessOne;
    var w := X.wM;
    var y := Hadamard(LessOne(z), w);
    DotApply(XvE(X), y, x);
    BilinScaleRows(Inverse(w), X.M, y, x);
    forall k | 0 <= k < |X.M| ensures Hadamard(y, Inverse(w))[X.M[k].i] == LessOne(z)[X.M[k].i] {
      var i := X.M[k].i;
      InverseUndoes(w, i);
      ProdAssoc(LessOne(z)[i], w[i], Inverse(w)[i]);
      ProdConst(LessOne(z)[i]);
    }
    BilinSameRows(X.M, Hadamard(y, Inverse(w)), LessOne(z), x);
    RowsToColumns(X.M, z, ratio, x);
    ColumnTotals(X.M, |w|, LessOne(ratio), x);
  }

  lemma HadamardMinus(a: seq<real>, b: seq<real>, c: seq<real>)
    requires |a| == |b| == |c|
    ensures Hadamard(a, Minus(b, c)) == Minus(Hadamard(a, b), Hadamard(a, c))
  {
    hide Prod;
    forall k | 0 <= k < |a| ensures Prod(a[k], b[k] - c[k]) == Prod(a[k], b[k]) - Prod(a[k], c[k]) {
      ProdPlus(a[k], b[k] - c[k], c[k]);
    }
  }

  lemma ExcessRows(z: seq<real>, w: seq<real>)
    requires |z| == |w|
    ensures Minus(Hadamard(z, w), w) == Hadamard(LessOne(z), w)
  {
    hide Prod;
    forall k | 0 <= k < |z| ensures Prod(z[k], w[k]) - w[k] == Prod(z[k] - 1.0, w[k]) {
      ProdPlus(w[k], z[k] - 1.0, 1.0);
      ProdConst(w[k]);
    }
  }

  /** The exchange matrices of one sheet at two steps, with the ratio of its cells. */
  ghost predicate RatioPair(X1: Weighted, X0: Weighted, ratio: seq<real>, z: seq<real>)
  {
    CarriesRatio(X1, ratio, z) && CarriesRatio(X0, ratio, z) && OwnColumns(X1) && OwnColumns(X0) && X1.wM == X0.wM
  }

  /** The drift of a sheet, told by how much area its classes gain or lose. */
  lemma SheetDriftIs(X1: Weighted, X0: Weighted, ratio: seq<real>, z: seq<real>, nE: nat, x: seq<real>)
    requires Fits(X1, nE) && Fits(X0, nE) && |x| == nE && RatioPair(X1, X0, ratio, z)
    requires RowsScalable(X1.M, X1.wM) && RowsScalable(X0.M, X0.wM)
    ensures SheetDrift(X1, X0, nE, x) == Dot(Hadamard(LessOne(ratio), Minus(X0.Mw, X1.Mw)), x)
  {
    hide Prod, Exchange, OwnColumns, RowsScalable, RowSums, LessOne, Dot;
    var y, r := Hadamard(LessOne(z), X1.wM), LessOne(ratio);
    ExcessRows(z, X1.wM);
    ExcessTotal(X1, ratio, z, x);
    ExcessTotal(X0, ratio, z, x);
    DotMinus(y, Exchange(X0, x), Exchange(X1, x));
    HadamardMinus(r, X0.Mw, X1.Mw);
    DotMinusLeft(Hadamard(r, X0.Mw), Hadamard(r, X1.Mw), x);
  }

  // ---------------------------------------------------------------- exactly when a step keeps the total

  /** What the first n sheets shift between classes at elevation cell e: the sum of (ratio - 1) (Mw0 - Mw1). */
  ghost function ClassShift(X1s: seq<Weighted>, X0s: seq<Weighted>, ratios: seq<seq<real>>, e: nat, n: nat): real
    requires n <= |X1s| == |X0s| == |ratios|
    requires forall k :: 0 <= k < n ==> e < |X1s[k].Mw| == |X0s[k].Mw| == |ratios[k]|
  {
    if n == 0 then 0.0
    else
      ClassShift(X1s, X0s, ratios, e, n - 1) + Prod(ratios[n - 1][e] - 1.0, X0s[n - 1].Mw[e] - X1s[n - 1].Mw[e])
  }

  ghost predicate SameClasses(X1s: seq<Weighted>, X0s: seq<Weighted>, ratios: seq<seq<real>>, nE: nat)
  {
    && |ratios| == |X1s| == |X0s|
    && forall k :: 0 <= k < |X1s| ==> |X1s[k].Mw| == |X0s[k].Mw| == |ratios[k]| == nE
  }

  /** At every elevation cell the sheets together shift nothing. */
  ghost predicate NoShift(X1s: seq<Weighted>, X0s: seq<Weighted>, ratios: seq<seq<real>>, nE: nat)
    requires SameClasses(X1s, X0s, ratios, nE)
  {
    forall e :: 0 <= e < nE ==> ClassShift(X1s, X0s, ratios, e, |X1s|) == 0.0
  }

  /** The sheets of two steps, paired with their ratios. */
  ghost predicate RatioPairs(X1s: seq<Weighted>, X0s: seq<Weighted>, ratios: seq<seq<real>>, zs: seq<seq<real>>,
                             nE: nat)
  {
    && Paired(X1s, X0s, nE) && |ratios| == |zs| == |X1s|
    && forall k :: 0 <= k < |X1s| ==> |ratios[k]| == nE && RatioPair(X1s[k], X0s[k], ratios[k], zs[k])
  }

  lemma RatioPairsFit(X1s: seq<Weighted>, X0s: seq<Weighted>, ratios: seq<seq<real>>, zs: seq<seq<real>>, nE: nat)
    requires RatioPairs(X1s, X0s, ratios, zs, nE)
    ensures |ratios| == |zs| == |X1s| == |X0s|
    ensures forall k :: 0 <= k < |X1s| ==> |X1s[k].Mw| == |X0s[k].Mw| == |ratios[k]| == nE
    ensures forall k :: 0 <= k < |X1s| ==> OwnColumns(X1s[k]) && OwnColumns(X0s[k])
    ensures SameExchangeWeights(X1s, X0s)
  {
    hide OwnColumns, CarriesRatio;
  }

  ghost function ShiftVector(X1s: seq<Weighted>, X0s: seq<Weighted>, ratios: seq<seq<real>>, zs: seq<seq<real>>,
                             nE: nat, n: nat): (r: seq<real>)
    requires RatioPairs(X1s, X0s, ratios, zs, nE) && n <= |X1s|
    ensures |r| == nE
  {
    RatioPairsFit(X1s, X0s, ratios, zs, nE);
    seq(nE, e requires 0 <= e < nE => ClassShift(X1s, X0s, ratios, e, n))
  }

  lemma {:induction false} DriftIsShift(X1s: seq<Weighted>, X0s: seq<Weighted>, ratios: seq<seq<real>>,
                                        zs: seq<seq<real>>, nE: nat, x: seq<real>, n: nat)
    requires RatioPairs(X1s, X0s, ratios, zs, nE) && |x| == nE && n <= |X1s| && Divisible(X1s, X0s, nE)
    ensures Drift(X1s, X0s, nE, x, n) == Dot(ShiftVector(X1s, X0s, ratios, zs, nE, n), x)
  {
    hide Prod, SheetDrift, CarriesRatio, OwnColumns, RowsScalable, Fits;
    RatioPairsFit(X1s, X0s, ratios, zs, nE);
    var v := ShiftVector(X1s, X0s, ratios, zs, nE, n);
    if n == 0 {
      DotZeroRight(x, v);
      DotComm(x, v);
    } else {
      DriftIsShift(X1s, X0s, ratios, zs, nE, x, n - 1);
      var before := ShiftVector(X1s, X0s, ratios, zs, nE, n - 1);
      var X1, X0, r := X1s[n - 1], X0s[n - 1], ratios[n - 1];
      SheetDriftIs(X1, X0, r, zs[n - 1], nE, x);
      var d := Hadamard(LessOne(r), Minus(X0.Mw, X1.Mw));
      assert v == Plus(before, d);
      DotComm(v, x);
      DotPlus(x, before, d);
      DotComm(before, x);
      DotComm(d, x);
    }
  }

  /** A step keeps the total of the elevation field, whatever the field. */
  ghost predicate KeepsTotals(X1s: seq<Weighted>, X0s: seq<Weighted>, nE: nat)
    requires Paired(X1s, X0s, nE)
  {
    PairedWeights(X1s, X0s, nE);
    forall x: seq<real> :: |x| == nE ==> Total(X1s, nE, Corrected(X1s, X0s, nE, x)) == Total(X0s, nE, x)
  }

  lemma StepChange(X1s: seq<Weighted>, X0s: seq<Weighted>, ratios: seq<seq<real>>, zs: seq<seq<real>>, nE: nat,
                   x: seq<real>)
    requires RatioPairs(X1s, X0s, ratios, zs, nE) && |x| == nE && Divisible(X1s, X0s, nE)
    ensures forall k :: 0 <= k < |X1s| ==> |X1s[k].Mw| == nE && |X0s[k].Mw| == nE
    ensures Total(X1s, nE, Corrected(X1s, X0s, nE, x))
         == Total(X0s, nE, x) + Dot(ShiftVector(X1s, X0s, ratios, zs, nE, |X1s|), x)
  {
    hide Prod, Paired, Corrected, Drift, CarriedTotal, ShiftVector, Dot, TotalMw, RatioPair, OwnColumns, RowsScalable;
    RatioPairsFit(X1s, X0s, ratios, zs, nE);
    CorrectedTotal(X1s, X0s, nE, x);
    DivisibleRows(X1s, X0s, nE);
    CarriedIsTotal(X1s, X0s, nE, x, |X1s|);
    DriftIsShift(X1s, X0s, ratios, zs, nE, x, |X1s|);
  }

  /**
   With unchanged exchange cell weights, a step with matrices that carry ratios keeps the total of every field exactly
   if at every elevation cell the sheets together shift nothing.
   */
  lemma StepKeepsExactly(X1s: seq<Weighted>, X0s: seq<Weighted>, ratios: seq<seq<real>>, zs: seq<seq<real>>, nE: nat)
    requires RatioPairs(X1s, X0s, ratios, zs, nE) && Divisible(X1s, X0s, nE)
    ensures SameClasses(X1s, X0s, ratios, nE) && Paired(X1s, X0s, nE)
    ensures KeepsTotals(X1s, X0s, nE) <==> NoShift(X1s, X0s, ratios, nE)
  {
    hide *;
    RatioPairsPaired(X1s, X0s, ratios, zs, nE);
    RatioPairsClasses(X1s, X0s, ratios, zs, nE);
    if KeepsTotals(X1s, X0s, nE) {
      KeptShiftsNothing(X1s, X0s, ratios, zs, nE);
    }
    if NoShift(X1s, X0s, ratios, nE) {
      NoShiftKeeps(X1s, X0s, ratios, zs, nE);
    }
  }

  lemma RatioPairsClasses(X1s: seq<Weighted>, X0s: seq<Weighted>, ratios: seq<seq<real>>, zs: seq<seq<real>>, nE: nat)
    requires RatioPairs(X1s, X0s, ratios, zs, nE)
    ensures SameClasses(X1s, X0s, ratios, nE)
  {
    hide RatioPair;
  }

  lemma KeptShiftsNothing(X1s: seq<Weighted>, X0s: seq<Weighted>, ratios: seq<seq<real>>, zs: seq<seq<real>>, nE: nat)
    requires RatioPairs(X1s, X0s, ratios, zs, nE) && Divisible(X1s, X0s, nE)
    requires Paired(X1s, X0s, nE) && KeepsTotals(X1s, X0s, nE)
    requires SameClasses(X1s, X0s, ratios, nE)
    ensures NoShift(X1s, X0s, ratios, nE)
  {
    hide Prod, Paired, Corrected, Total, Divisible, RatioPairs, Dot, ClassShift;
    RatioPairsFit(X1s, X0s, ratios, zs, nE);
    var v := ShiftVector(X1s, X0s, ratios, zs, nE, |X1s|);
    forall e | 0 <= e < nE ensures ClassShift(X1s, X0s, ratios, e, |X1s|) == 0.0 {
      var u := Unit(nE, e);
      StepChange(X1s, X0s, ratios, zs, nE, u);
      DotComm(v, u);
      DotUnit(nE, e, v);
      assert v[e] == 0.0;
    }
  }

  lemma NoShiftKeeps(X1s: seq<Weighted>, X0s: seq<Weighted>, ratios: seq<seq<real>>, zs: seq<seq<real>>, nE: nat)
    requires RatioPairs(X1s, X0s, ratios, zs, nE) && Divisible(X1s, X0s, nE)
    requires SameClasses(X1s, X0s, ratios, nE)
    requires NoShift(X1s, X0s, ratios, nE)
    ensures Paired(X1s, X0s, nE) && KeepsTotals(X1s, X0s, nE)
  {
    hide Prod, Paired, Corrected, Total, Divisible, RatioPairs, Dot, ClassShift;
    RatioPairsPaired(X1s, X0s, ratios, zs, nE);
    RatioPairsFit(X1s, X0s, ratios, zs, nE);
    var v := ShiftVector(X1s, X0s, ratios, zs, nE, |X1s|);
    forall x: seq<real> | |x| == nE ensures Total(X1s, nE, Corrected(X1s, X0s, nE, x)) == Total(X0s, nE, x) {
      StepChange(X1s, X0s, ratios, zs, nE, x);
      DotComm(v, x);
      DotZeroRight(x, v);
    }
  }

  lemma RatioPairsPaired(X1s: seq<Weighted>, X0s: seq<Weighted>, ratios: seq<seq<real>>, zs: seq<seq<real>>, nE: nat)
    requires RatioPairs(X1s, X0s, ratios, zs, nE)
    ensures Paired(X1s, X0s, nE)
  {
  }

  // ---------------------------------------------------------------- the coupler's matrices carry ratios

  /** The ratio of every exchange cell: that of its atmosphere cell. */
  ghost function CellRatio(s: Sheet, ratioA: seq<real>): int -> real
  {
    k => if 0 <= k < |s.cells| && s.cells[k].iA < |ratioA| then ratioA[s.cells[k].iA] else 0.0
  }

  ghost function ExchangeRatio(s: Sheet, ratioA: seq<real>): (z: seq<real>)
    requires s.Valid()
    ensures |z| == s.nX
  {
    Scatter(s, CellRatio(s, ratioA), |s.cells|)
  }

  lemma EntryRatio(s: Sheet, ratioA: seq<real>, ratioE: seq<real>, e: Entry)
    requires s.Valid() && s.AllInBounds() && RatiosAgree(s, ratioA, ratioE) && e in Ur(s, E, |s.cells|)
    ensures e.i < s.nX && e.j < |ratioE| && ExchangeRatio(s, ratioA)[e.i] == ratioE[e.j]
  {
    hide Prod, Ur, HasShare, RatiosAgree, Sheet.AllInBounds;
    var k := UrEntry(s, E, |s.cells|, e);
    ShareHasRatio(s, E, ratioA, ratioE, k, e.j);
    ScatterAt(s, CellRatio(s, ratioA), |s.cells|, k);
    CellInRange(s, k);
  }

  /** XvE with correctA carries the ratios of its cells. */
  lemma MatrixCarriesRatio(s: Sheet, ratioA: seq<real>, ratioE: seq<real>)
    requires s.Valid() && s.AllInBounds() && RatiosAgree(s, ratioA, ratioE)
    ensures |ratioE| == s.Extent(E)
    ensures CarriesRatio(ExchangeMatrix(s, ratioE, true), ratioE, ExchangeRatio(s, ratioA))
  {
    hide Prod, Ur, Apply, Sheet.Valid, Sheet.AllInBounds, ExchangeRatio;
    var U, z, m, n := Ur(s, E, |s.cells|), ExchangeRatio(s, ratioA), s.nX, s.Extent(E);
    UrInBounds(s, E, |s.cells|);
    var M := ScaleCols(U, ratioE);
    forall k | 0 <= k < |U| ensures z[U[k].i] == ratioE[U[k].j] && M[k] == ScaleRows(z, U)[k] {
      EntryRatio(s, ratioA, ratioE, U[k]);
      ProdComm(U[k].v, ratioE[U[k].j]);
    }
    assert M == ScaleRows(z, U);
    forall i: nat | i < m ensures RowSums(M, m, n)[i] == Hadamard(z, RowSums(U, m, n))[i] {
      ApplyScaleRows(z, U, Ones(n), m, i);
    }
  }

  /** Two states of one ice sheet: only the ice surface moves, and the coupler corrects for area ratios. */
  ghost predicate CorrectedSheet(s1: Sheet, s0: Sheet, X1: Weighted, X0: Weighted, ratioA: seq<real>, ratioE: seq<real>)
  {
    && s1.Valid() && s1.AllInBounds() && s0.Valid() && s0.AllInBounds() && SameGeometry(s1, s0) && SameMask(s1, s0)
    && RatiosAgree(s1, ratioA, ratioE)
    && X1 == ExchangeMatrix(s1, ratioE, true) && X0 == ExchangeMatrix(s0, ratioE, true)
  }

  lemma SameRatios(s1: Sheet, s0: Sheet, ratioA: seq<real>, ratioE: seq<real>)
    requires s1.Valid() && s1.AllInBounds() && s0.Valid() && s0.AllInBounds() && SameGeometry(s1, s0)
    requires RatiosAgree(s1, ratioA, ratioE)
    ensures RatiosAgree(s0, ratioA, ratioE) && ExchangeRatio(s1, ratioA) == ExchangeRatio(s0, ratioA)
  {
    hide Linterp, ElevationIndex, Sheet.InBounds;
    forall a: nat, h: nat | a < s0.nA && h < |s0.hcdefs| ensures ClassHasRatio(s0, ratioA, ratioE, a, h) {
      assert ClassHasRatio(s1, ratioA, ratioE, a, h);
    }
    SameScatter(s1, s0, CellRatio(s1, ratioA), CellRatio(s0, ratioA), |s1.cells|);
  }

  lemma CorrectedSheetPairs(s1: Sheet, s0: Sheet, X1: Weighted, X0: Weighted, ratioA: seq<real>, ratioE: seq<real>,
                            nE: nat)
    requires CorrectedSheet(s1, s0, X1, X0, ratioA, ratioE) && s1.Extent(E) == nE
    ensures s1.Valid() && Fits(X1, nE) && Fits(X0, nE) && |ratioE| == nE
    ensures RatioPair(X1, X0, ratioE, ExchangeRatio(s1, ratioA))
  {
    hide Sheet.Valid, Sheet.AllInBounds, ExchangeMatrix, Fits, OwnColumns, OwnRows, CarriesRatio, RatiosAgree,
      ExchangeRatio;
    SameRatios(s1, s0, ratioA, ratioE);
    MatrixCarriesRatio(s1, ratioA, ratioE);
    MatrixCarriesRatio(s0, ratioA, ratioE);
    ExchangeMatrixSums(s1, ratioE, true);
    ExchangeMatrixSums(s0, ratioE, true);
    SameMaskSameWeights(s1, s0, ratioE, ratioE, true);
  }

  ghost predicate CorrectedStep(s1s: seq<Sheet>, s0s: seq<Sheet>, X1s: seq<Weighted>, X0s: seq<Weighted>,
                                ratioAs: seq<seq<real>>, ratioEs: seq<seq<real>>, nE: nat)
  {
    && |s1s| == |s0s| == |X1s| == |X0s| == |ratioAs| == |ratioEs|
    && forall k :: 0 <= k < |s1s| ==>
         CorrectedSheet(s1s[k], s0s[k], X1s[k], X0s[k], ratioAs[k], ratioEs[k]) && s1s[k].Extent(E) == nE
  }

  lemma CorrectedStepPairs(s1s: seq<Sheet>, s0s: seq<Sheet>, X1s: seq<Weighted>, X0s: seq<Weighted>,
                           ratioAs: seq<seq<real>>, ratioEs: seq<seq<real>>, nE: nat) returns (zs: seq<seq<real>>)
    requires CorrectedStep(s1s, s0s, X1s, X0s, ratioAs, ratioEs, nE)
    ensures RatioPairs(X1s, X0s, ratioEs, zs, nE)
  {
    hide CorrectedSheet, Fits, RatioPair, Sheet.Valid, ExchangeRatio;
    forall k | 0 <= k < |s1s|
      ensures s1s[k].Valid() && Fits(X1s[k], nE) && Fits(X0s[k], nE) && |ratioEs[k]| == nE
      ensures RatioPair(X1s[k], X0s[k], ratioEs[k], ExchangeRatio(s1s[k], ratioAs[k]))
    {
      CorrectedSheetPairs(s1s[k], s0s[k], X1s[k], X0s[k], ratioAs[k], ratioEs[k], nE);
    }
    zs := seq(|s1s|, k requires 0 <= k < |s1s| => ExchangeRatio(s1s[k], ratioAs[k]));
    forall k | 0 <= k < |s1s| ensures |X1s[k].wM| == |X0s[k].wM| { PairHasRows(X1s[k], X0s[k], ratioEs[k], zs[k]); }
  }

  lemma PairHasRows(X1: Weighted, X0: Weighted, ratio: seq<real>, z: seq<real>)
    requires RatioPair(X1, X0, ratio, z)
    ensures |X1.wM| == |X0.wM|
  {
    hide CarriesRatio, OwnColumns;
  }

  /**
   The coupler's own setting: with correctA and an unchanged ice mask, a step keeps the total of every elevation field
   exactly if at every elevation cell the sum over the sheets of (ratio - 1) (Mw0 - Mw1) is 0.
   */
  lemma CorrectedStepKeepsExactly(s1s: seq<Sheet>, s0s: seq<Sheet>, X1s: seq<Weighted>, X0s: seq<Weighted>,
                                  ratioAs: seq<seq<real>>, ratioEs: seq<seq<real>>, nE: nat)
    requires CorrectedStep(s1s, s0s, X1s, X0s, ratioAs, ratioEs, nE)
    requires Paired(X1s, X0s, nE) ==> Divisible(X1s, X0s, nE)
    ensures Paired(X1s, X0s, nE) && SameClasses(X1s, X0s, ratioEs, nE)
    ensures KeepsTotals(X1s, X0s, nE) <==> NoShift(X1s, X0s, ratioEs, nE)
  {
    hide CorrectedStep, NoShift, Paired, Divisible, KeepsTotals, ClassShift, RatioPairs;
    var zs := CorrectedStepPairs(s1s, s0s, X1s, X0s, ratioAs, ratioEs, nE);
    RatioPairsPaired(X1s, X0s, ratioEs, zs, nE);
    StepKeepsExactly(X1s, X0s, ratioEs, zs, nE);
  }

  /** If no ice lies below the lowest class, such a step never divides by 0. */
  lemma CorrectedStepDivisible(s1s: seq<Sheet>, s0s: seq<Sheet>, X1s: seq<Weighted>, X0s: seq<Weighted>,
                               ratioAs: seq<seq<real>>, ratioEs: seq<seq<real>>, nE: nat)
    requires CorrectedStep(s1s, s0s, X1s, X0s, ratioAs, ratioEs, nE) && Paired(X1s, X0s, nE)
    requires forall k :: 0 <= k < |s1s| ==> NoExtrapolation(s1s[k]) && NoExtrapolation(s0s[k])
    ensures Divisible(X1s, X0s, nE)
  {
    hide CorrectedSheet, Sheet.Valid, NoExtrapolation, Proper, Divisible, Paired;
    forall k | 0 <= k < |s1s| ensures Proper(X1s[k], nE) && Proper(X0s[k], nE) {
      CorrectedSheetProper(s1s[k], s0s[k], X1s[k], X0s[k], ratioAs[k], ratioEs[k], nE);
    }
    ProperDivisible(X1s, X0s, nE);
  }

  lemma CorrectedSheetProper(s1: Sheet, s0: Sheet, X1: Weighted, X0: Weighted, ratioA: seq<real>, ratioE: seq<real>,
                             nE: nat)
    requires CorrectedSheet(s1, s0, X1, X0, ratioA, ratioE) && s1.Extent(E) == nE
    requires NoExtrapolation(s1) && NoExtrapolation(s0)
    ensures Proper(X1, nE) && Proper(X0, nE)
  {
    hide Sheet.Valid, Sheet.AllInBounds, ExchangeMatrix, NoExtrapolation, Proper, RatiosAgree, AllPositive;
    ClassRatiosPositive(s1, ratioA, ratioE);
    ExchangeMatrixProper(s1, ratioE, true);
    ExchangeMatrixProper(s0, ratioE, true);
  }

  lemma ClassRatiosPositive(s: Sheet, ratioA: seq<real>, ratioE: seq<real>)
    requires s.Valid() && s.AllInBounds() && RatiosAgree(s, ratioA, ratioE)
    ensures |ratioE| == s.Extent(E) && AllPositive(ratioE)
  {
    hide ElevationIndex, ElevationIndexing, Sheet.InBounds;
    forall e | 0 <= e < |ratioE| ensures ratioE[e] > 0.0 {
      var a, h := CellAndClass(s.hc, s.nA, |s.hcdefs|, e);
      assert ClassHasRatio(s, ratioA, ratioE, a, h);
    }
  }

  /** For a single sheet: every class has a ratio of 1, or keeps its area. */
  lemma OneSheetKeepsExactly(s1: Sheet, s0: Sheet, X1: Weighted, X0: Weighted, ratioA: seq<real>, ratioE: seq<real>,
                             nE: nat)
    requires CorrectedSheet(s1, s0, X1, X0, ratioA, ratioE) && s1.Extent(E) == nE
    requires Paired([X1], [X0], nE) ==> Divisible([X1], [X0], nE)
    ensures Paired([X1], [X0], nE) && |X1.Mw| == |X0.Mw| == |ratioE| == nE
    ensures KeepsTotals([X1], [X0], nE) <==> forall e :: 0 <= e < nE ==> ratioE[e] == 1.0 || X0.Mw[e] == X1.Mw[e]
  {
    hide Paired, Divisible, KeepsTotals, CorrectedSheet, NoShift;
    CorrectedStepKeepsExactly([s1], [s0], [X1], [X0], [ratioA], [ratioE], nE);
    assert [X1][0] == X1 && [X0][0] == X0 && [ratioE][0] == ratioE;
    OneSheetShift(X1, X0, ratioE, nE);
  }

  /** Every step of a run shifts nothing at any elevation cell. */
  ghost predicate ShiftlessRun(sheets: seq<seq<Sheet>>, hist: seq<seq<Weighted>>, ratioAs: seq<seq<real>>,
                               ratioEs: seq<seq<real>>, nE: nat)
  {
    && |sheets| == |hist|
    && forall u :: 0 < u < |hist| ==>
         && CorrectedStep(sheets[u], sheets[u - 1], hist[u], hist[u - 1], ratioAs, ratioEs, nE)
         && SameClasses(hist[u], hist[u - 1], ratioEs, nE) && NoShift(hist[u], hist[u - 1], ratioEs, nE)
  }

  /** So over whole runs with correctA and an unchanged ice mask the total never changes if no step shifts anything. */
  lemma {:induction false} CorrectedRunConserves(sheets: seq<seq<Sheet>>, hist: seq<seq<Weighted>>,
                                                 ratioAs: seq<seq<real>>, ratioEs: seq<seq<real>>,
                                                 corrections: seq<Triplets>, nE: nat, x: seq<real>, t: nat)
    requires ShiftlessRun(sheets, hist, ratioAs, ratioEs, nE)
    requires Steps(hist, corrections, nE) && DivisibleRun(hist, nE) && |x| == nE && t < |hist|
    requires forall k :: 0 <= k < |hist[0]| ==> |hist[0][k].Mw| == nE
    ensures forall k :: 0 <= k < |hist[t]| ==> |hist[t][k].Mw| == nE
    ensures Total(hist[t], nE, FieldAfter(hist, corrections, nE, x, t)) == Total(hist[0], nE, x)
  {
    hide CorrectedStep, NoShift, Divisible, Paired, SameMatrix, Correction, Total, Corrected;
    if t > 0 {
      CorrectedRunConserves(sheets, hist, ratioAs, ratioEs, corrections, nE, x, t - 1);
      var x0 := FieldAfter(hist, corrections, nE, x, t - 1);
      StepIsCorrected(hist, corrections, nE, x0, t);
      CorrectedStepKeepsExactly(sheets[t], sheets[t - 1], hist[t], hist[t - 1], ratioAs, ratioEs, nE);
      assert KeepsTotals(hist[t], hist[t - 1], nE);
      PairedWeights(hist[t], hist[t - 1], nE);
    }
  }

  lemma OneSheetShift(X1: Weighted, X0: Weighted, ratioE: seq<real>, nE: nat)
    requires |X1.Mw| == |X0.Mw| == |ratioE| == nE
    ensures NoShift([X1], [X0], [ratioE], nE)
        <==> forall e :: 0 <= e < nE ==> ratioE[e] == 1.0 || X0.Mw[e] == X1.Mw[e]
  {
    hide Prod;
    forall e | 0 <= e < nE
      ensures ClassShift([X1], [X0], [ratioE], e, |[X1]|) == 0.0 <==> ratioE[e] == 1.0 || X0.Mw[e] == X1.Mw[e]
    {
      assert ClassShift([X1], [X0], [ratioE], e, 0) == 0.0;
      ProdZero(ratioE[e] - 1.0, X0.Mw[e] - X1.Mw[e]);
    }
  }

  // ---------------------------------------------------------------- a sheet that drifts

  /**
   With correctA the row weights are not the row sums, and the total can drift: one exchange cell whose ice moves
   from the first elevation class to the second keeps its total exactly when the area ratio is 1 or both classes
   hold the same value.
   */
  lemma CorrectedRatioDrifts(r: real, a: real, b: real, X1: Weighted, X0: Weighted)
    requires r > 0.0
    requires X1 == Weighted([1.0], [Entry(0, 1, r)], [0.0, r]) && X0 == Weighted([1.0], [Entry(0, 0, r)], [r, 0.0])
    ensures Paired([X1], [X0], 2)
    ensures Total([X1], 2, Corrected([X1], [X0], 2, [a, b])) == Total([X0], 2, [a, b]) <==> r == 1.0 || a == b
  {
    hide Prod, Recip, RowsScalable, OwnColumns, Divisible, Corrected, Dot, RowSums, ColSums, LocalCorrection;
    var x := [a, b];
    OneCell(X1, 1, r, x);
    OneCell(X0, 0, r, x);
    OneCellDivisible(X1, X0, r);
    CorrectedTotal([X1], [X0], 2, x);
    var v0, v1 := Prod(r, a), Prod(r, b);
    assert Exchange(X0, x) == [v0] && Exchange(X1, x) == [v1];
    assert CarriedTotal([X1], [X0], 2, x, 1) == CarriedTotal([X1], [X0], 2, x, 0) + Dot([1.0], [v0]);
    assert Drift([X1], [X0], 2, x, 1) == Drift([X1], [X0], 2, x, 0) + SheetDrift(X1, X0, 2, x);
    assert Minus(RowSums(X1.M, 1, 2), X1.wM) == [r - 1.0];
    assert Minus(Exchange(X0, x), Exchange(X1, x)) == [v0 - v1];
    DotOne(1.0, v0);
    DotOne(r - 1.0, v0 - v1);
    ProdConst(v0);
    assert TotalMw([X0], 2, 1) == X0.Mw;
    DotTwo(X0.Mw, x);
    ProdConst(b);
    ProdConst(a);
    RatioFactor(r, a, b);
  }

  lemma DotOne(p: real, q: real)
    ensures Dot([p], [q]) == Prod(p, q)
  {
    hide Prod;
    assert [p][..0] == [] && [q][..0] == [];
  }

  lemma DotTwo(p: seq<real>, q: seq<real>)
    requires |p| == |q| == 2
    ensures Dot(p, q) == Prod(p[0], q[0]) + Prod(p[1], q[1])
  {
    hide Prod;
    assert p[..1] == [p[0]] && q[..1] == [q[0]];
    DotOne(p[0], q[0]);
  }

  lemma RatioFactor(r: real, a: real, b: real)
    requires r > 0.0
    ensures Prod(r - 1.0, Prod(r, a) - Prod(r, b)) == 0.0 <==> r == 1.0 || a == b
  {
    assert Prod(r, a) - Prod(r, b) == r * (a - b);
    if Prod(r - 1.0, r * (a - b)) == 0.0 && r != 1.0 {
      assert r * (a - b) == 0.0;
    }
  }

  lemma OneCell(X: Weighted, j: nat, r: real, x: seq<real>)
    requires j < 2 && |x| == 2 && X.wM == [1.0] && X.M == [Entry(0, j, r)]
    requires X.Mw == [0.0, 0.0][j := r]
    ensures InBounds(X.M, 1, 2) && Exchange(X, x) == [Prod(r, x[j])]
    ensures OwnColumns(X) && RowSums(X.M, 1, 2) == [r]
  {
    hide Prod;
    assert X.M[..0] == [] && XvE(X)[..0] == [] && Transpose(X.M)[..0] == [];
    assert Recip(1.0) == 1.0;
    ProdConst(r);
    assert XvE(X)[0] == Entry(0, j, r);
    assert Apply(XvE(X), x, 1) == Const(1, 0.0)[0 := 0.0 + Prod(r, x[j])];
    assert Transpose(X.M)[0] == Entry(j, 0, r) && Ones(1)[0] == Ones(2)[j] == 1.0;
    assert Apply(Transpose(X.M), Ones(1), 2) == Const(2, 0.0)[j := 0.0 + r];
    assert Apply(X.M, Ones(2), 1) == Const(1, 0.0)[0 := 0.0 + r];
  }

  lemma OneCellDivisible(X1: Weighted, X0: Weighted, r: real)
    requires r > 0.0
    requires X1 == Weighted([1.0], [Entry(0, 1, r)], [0.0, r]) && X0 == Weighted([1.0], [Entry(0, 0, r)], [r, 0.0])
    ensures Paired([X1], [X0], 2) && Divisible([X1], [X0], 2)
  {
    hide Prod, LocalCorrection;
    assert [X1][0] == X1 && [X0][0] == X0;
    assert TotalMw([X1], 2, 1) == Plus(TotalMw([X1], 2, 0), X1.Mw);
    var U := Unscaled([X1], [X0], 2, 1);
    forall l | 0 <= l < |U| ensures U[l].i == 1 {
      var k, a, b := UnscaledEntry([X1], [X0], 2, 1, U[l]);
    }
  }

  /** An ice sheet of one exchange cell, whose ice surface lies at the first or the second of two classes. */
  ghost function OneCellSheet(high: bool): Sheet
  {
    Sheet([ExCell(0, 0, 0, 1.0)], [0.0, 100.0], ELEV_CLASS_INTERP, Shape([0, 0], [1, 2], [0, 1]),
          [Some(if high then 100.0 else 0.0)], 1, 1)
  }

  lemma OneCellSheetValid(high: bool)
    ensures var s := OneCellSheet(high); s.Valid() && s.AllInBounds() && s.Extent(E) == 2 && s.Unmasked(s.cells[0])
  {
    var hc := Shape([0, 0], [1, 2], [0, 1]);
    assert 0 in hc.indices && 1 in hc.indices;
  }

  lemma OneCellClass(hc: Shape, h: nat)
    requires ElevationIndexing(hc, 1, 2) && hc.indices == [0, 1] && h < 2
    ensures ElevationIndex(hc, 0, h) == h
  {
    hide Shape.Value, IsPermutation;
    TwoDimensional(hc, 0, h);
    ZeroTimes(hc.extent[1]);
  }

  lemma ZeroTimes(n: int)
    ensures Ints.Times(0, n) == 0
  {
  }

  /** Its Ur matrix has one entry, in the class that the surface lies at. */
  lemma OneCellUr(high: bool)
    ensures OneCellSheet(high).Valid() && OneCellSheet(high).AllInBounds()
    ensures Ur(OneCellSheet(high), E, 1) == [Entry(0, if high then 1 else 0, 1.0)]
  {
    hide ElevationIndex, Linterp, IsPermutation, Prod, Nearest;
    OneCellSheetValid(high);
    var s, c, h := OneCellSheet(high), ExCell(0, 0, 0, 1.0), if high then 1 else 0;
    assert s.cells[0] == c && c in s.cells;
    assert Nearest(s.hcdefs, s.Elevation(c)) == h by { NearestOfTwo(high); }
    OneCellClass(s.hc, h);
    ProdConst(1.0);
    assert StencilEntries(c, Stencil(s, E, c)) == [Entry(0, h, 1.0)];
    assert Ur(s, E, 0) == [];
  }

  lemma NearestOfTwo(high: bool)
    ensures StrictlyAscending([0.0, 100.0])
    ensures Nearest([0.0, 100.0], if high then 100.0 else 0.0) == if high then 1 else 0
  {
    hide Nearest;
    var k := Nearest([0.0, 100.0], if high then 100.0 else 0.0);
    assert Distance(if high then 100.0 else 0.0, [0.0, 100.0][if high then 1 else 0]) == 0.0;
  }

  /** XvE of this sheet with correctA and an area ratio of r. */
  lemma OneCellMatrix(high: bool, r: real)
    ensures OneCellSheet(high).Valid() && OneCellSheet(high).AllInBounds() && OneCellSheet(high).Extent(E) == 2
    ensures var j := if high then 1 else 0;
      ExchangeMatrix(OneCellSheet(high), [r, r], true) == Weighted([1.0], [Entry(0, j, r)], [0.0, 0.0][j := r])
  {
    hide Ur, Prod, Sheet.Valid, Sheet.AllInBounds, Apply;
    OneCellSheetValid(high);
    OneCellUr(high);
    var s, j := OneCellSheet(high), if high then 1 else 0;
    UrInBounds(s, E, 1);
    var U := [Entry(0, j, 1.0)];
    ProdConst(r);
    assert ScaleCols(U, [r, r]) == [Entry(0, j, r)];
    OneEntrySums(j);
    assert Hadamard([r, r], [0.0, 0.0][j := 1.0]) == [0.0, 0.0][j := r];
  }

  lemma OneEntrySums(j: nat)
    requires j < 2
    ensures InBounds([Entry(0, j, 1.0)], 1, 2) && RowSums([Entry(0, j, 1.0)], 1, 2) == [1.0]
    ensures ColSums([Entry(0, j, 1.0)], 1, 2) == [0.0, 0.0][j := 1.0]
  {
    hide Prod;
    var U := [Entry(0, j, 1.0)];
    assert U[..0] == [] && Transpose(U)[..0] == [];
    ProdConst(1.0);
    assert Transpose(U)[0] == Entry(j, 0, 1.0) && Ones(1)[0] == Ones(2)[j] == 1.0;
    assert Apply(Transpose(U), Ones(1), 2) == Const(2, 0.0)[j := 0.0 + 1.0];
    assert Apply(U, Ones(2), 1) == Const(1, 0.0)[0 := 0.0 + 1.0];
  }

  /** A real ice sheet whose only cell rises by one class: with an area ratio other than 1, totals drift. */
  lemma RisingSheetDrifts(r: real, a: real, b: real)
    requires r > 0.0
    ensures OneCellSheet(true).Valid() && OneCellSheet(true).AllInBounds() && OneCellSheet(true).Extent(E) == 2
    ensures OneCellSheet(false).Valid() && OneCellSheet(false).AllInBounds() && OneCellSheet(false).Extent(E) == 2
    ensures var X1s, X0s := [ExchangeMatrix(OneCellSheet(true), [r, r], true)],
                            [ExchangeMatrix(OneCellSheet(false), [r, r], true)];
      && Paired(X1s, X0s, 2)
      && (Total(X1s, 2, Corrected(X1s, X0s, 2, [a, b])) == Total(X0s, 2, [a, b]) <==> r == 1.0 || a == b)
  {
    hide ExchangeMatrix, Total, Corrected, Paired, Sheet.Valid, Sheet.AllInBounds;
    OneCellMatrix(true, r);
    OneCellMatrix(false, r);
    var X1, X0 := Weighted([1.0], [Entry(0, 1, r)], [0.0, r]), Weighted([1.0], [Entry(0, 0, r)], [r, 0.0]);
    assert [0.0, 0.0][1 := r] == [0.0, r] && [0.0, 0.0][0 := r] == [r, 0.0];
    CorrectedRatioDrifts(r, a, b, X1, X0);
  }
}
