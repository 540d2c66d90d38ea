/**
 Runs of the coupler (slib/icebin/GCMCoupler.cpp): the matrices of one step are handed to the next, and the
 corrections of all steps together conserve the elevation fields.
 */
module CouplingRuns {
  import opened Vectors
  import opened Sums
  import opened Sparse
  import opened ExchangeGrid
  import opened RegridMatrices
  import opened RegridProperties
  import opened E1vE0

  // ---------------------------------------------------------------- sparsify

  /** Dense elevation index j of a step stands for the sparse index dims[j]. */
  ghost predicate Dims(dims: seq<nat>, nE: nat)
  {
    && (forall j :: 0 <= j < |dims| ==> dims[j] < nE)
    && forall j, k :: 0 <= j < k < |dims| ==> dims[j] != dims[k]
  }

  function SparsifyEntries(M: Triplets, dims: seq<nat>): (r: Triplets)
    requires forall k :: 0 <= k < |M| ==> M[k].j < |dims|
    ensures |r| == |M| && forall k :: 0 <= k < |M| ==> r[k] == Entry(M[k].i, dims[M[k].j], M[k].v)
  {
    seq(|M|, k requires 0 <= k < |M| => Entry(M[k].i, dims[M[k].j], M[k].v))
  }

  ghost function SpreadWeights(w: seq<real>, dims: seq<nat>, nE: nat, n: nat): (r: seq<real>)
    requires Dims(dims, nE) && n <= |w| == |dims|
    ensures |r| == nE
  {
    if n == 0 then Const(nE, 0.0) else SpreadWeights(w, dims, nE, n - 1)[dims[n - 1] := w[n - 1]]
  }

  /** sparsify with the exchange dimension left alone and the elevation dimension made sparse. */
  method Sparsify(X: Weighted, dims: seq<nat>, nE: nat) returns (S: Weighted)
    requires Dims(dims, nE) && Fits(X, |dims|)
    ensures S == Weighted(X.wM, SparsifyEntries(X.M, dims), SpreadWeights(X.Mw, dims, nE, |dims|))
    ensures Fits(S, nE)
  {
    var M: Triplets := [];
    for k := 0 to |X.M|
      invariant |M| == k && forall l :: 0 <= l < k ==> M[l] == SparsifyEntries(X.M, dims)[l]
    {
      M := M + [Entry(X.M[k].i, dims[X.M[k].j], X.M[k].v)];
    }
    var Mw := Const(nE, 0.0);
    for j := 0 to |X.Mw|
      invariant Mw == SpreadWeights(X.Mw, dims, nE, j)
    {
      Mw := Mw[dims[j] := X.Mw[j]];
    }
    S := Weighted(X.wM, M, Mw);
  }

  ghost function Gather(x: seq<real>, dims: seq<nat>): (r: seq<real>)
    requires Dims(dims, |x|)
    ensures |r| == |dims| && forall k :: 0 <= k < |dims| ==> r[k] == x[dims[k]]
  {
    seq(|dims|, k requires 0 <= k < |dims| => x[dims[k]])
  }

  lemma {:induction false} SparsifyForm(M: Triplets, dims: seq<nat>, y: seq<real>, x: seq<real>)
    requires Dims(dims, |x|) && InBounds(M, |y|, |dims|)
    ensures InBounds(SparsifyEntries(M, dims), |y|, |x|)
    ensures Bilin(SparsifyEntries(M, dims), y, x) == Bilin(M, y, Gather(x, dims))
  {
    hide Prod;
    if |M| > 0 {
      SparsifyForm(M[..|M| - 1], dims, y, x);
      assert SparsifyEntries(M, dims)[..|M| - 1] == SparsifyEntries(M[..|M| - 1], dims);
    }
  }

  lemma {:induction false} DotSpread(w: seq<real>, dims: seq<nat>, x: seq<real>, n: nat)
    requires Dims(dims, |x|) && n <= |w| == |dims|
    ensures Dot(SpreadWeights(w, dims, |x|, n), x) == Dot(w[..n], Gather(x, dims)[..n])
    ensures forall k :: n <= k < |dims| ==> SpreadWeights(w, dims, |x|, n)[dims[k]] == 0.0
  {
    hide Prod;
    if n == 0 {
      DotZeroRight(x, Const(|x|, 0.0));
      DotComm(x, Const(|x|, 0.0));
    } else {
      DotSpread(w, dims, x, n - 1);
      var before, d := SpreadWeights(w, dims, |x|, n - 1), dims[n - 1];
      assert before[d := w[n - 1]] == before[d := before[d] + w[n - 1]];
      DotComm(before, x);
      DotUpdate(x, before, d, w[n - 1]);
      DotComm(before[d := w[n - 1]], x);
      ProdComm(x[d], w[n - 1]);
      assert w[..n][..n - 1] == w[..n - 1] && Gather(x, dims)[..n][..n - 1] == Gather(x, dims)[..n - 1];
    }
  }

  /** Going sparse keeps row weights that are row sums and column weights that are column sums. */
  lemma SparsifyKeepsSums(X: Weighted, dims: seq<nat>, nE: nat, S: Weighted)
    requires Dims(dims, nE) && Fits(X, |dims|)
    requires S == Weighted(X.wM, SparsifyEntries(X.M, dims), SpreadWeights(X.Mw, dims, nE, |dims|))
    ensures OwnRows(X) ==> OwnRows(S)
    ensures OwnColumns(X) ==> OwnColumns(S)
  {
    hide Prod, Bilin, Apply, Dot, SpreadWeights;
    var p, d := |X.wM|, |dims|;
    SparsifyForm(X.M, dims, Ones(p), Ones(nE));
    assert Gather(Ones(nE), dims) == Ones(d);
    forall i: nat | i < p ensures Apply(S.M, Ones(nE), p)[i] == Apply(X.M, Ones(d), p)[i] {
      ApplyElement(S.M, Ones(nE), p, i);
      ApplyElement(X.M, Ones(d), p, i);
      SparsifyForm(X.M, dims, Unit(p, i), Ones(nE));
    }
    assert RowSums(S.M, p, nE) == RowSums(X.M, p, d);
    if OwnColumns(X) {
      forall j: nat | j < nE ensures S.Mw[j] == ColSums(S.M, p, nE)[j] {
        var u := Unit(nE, j);
        SparsifyForm(X.M, dims, Ones(p), u);
        DotSpread(X.Mw, dims, u, d);
        assert X.Mw[..d] == X.Mw && Gather(u, dims)[..d] == Gather(u, dims);
        DotApplyTranspose(S.M, Ones(p), u);
        DotApplyTranspose(X.M, Ones(p), Gather(u, dims));
        DotComm(S.Mw, u);
        DotUnit(nE, j, S.Mw);
        DotComm(ColSums(S.M, p, nE), u);
        DotUnit(nE, j, ColSums(S.M, p, nE));
      }
    }
  }

  lemma {:induction false} SparsifyAt(M: Triplets, dims: seq<nat>, nE: nat, i: nat, e: nat)
    requires Dims(dims, nE) && (forall k :: 0 <= k < |M| ==> M[k].j < |dims|)
    ensures forall j: nat :: j < |dims| && dims[j] == e ==> At(SparsifyEntries(M, dims), i, e) == At(M, i, j)
    ensures e !in dims ==> At(SparsifyEntries(M, dims), i, e) == 0.0
  {
    if |M| > 0 {
      SparsifyAt(M[..|M| - 1], dims, nE, i, e);
      assert SparsifyEntries(M, dims)[..|M| - 1] == SparsifyEntries(M[..|M| - 1], dims);
    }
  }

  lemma {:induction false} SpreadAt(w: seq<real>, dims: seq<nat>, nE: nat, n: nat, e: nat)
    requires Dims(dims, nE) && n <= |w| == |dims| && e < nE
    ensures forall j: nat :: j < n && dims[j] == e ==> SpreadWeights(w, dims, nE, n)[e] == w[j]
    ensures e !in dims[..n] ==> SpreadWeights(w, dims, nE, n)[e] == 0.0
  {
    if n > 0 {
      SpreadAt(w, dims, nE, n - 1, e);
      assert dims[..n] == dims[..n - 1] + [dims[n - 1]];
    }
  }

  /** Going sparse loses nothing: dense elevation cell j is found at dims[j], and all other cells are empty. */
  lemma SparsifyMeans(X: Weighted, dims: seq<nat>, nE: nat, S: Weighted, i: nat)
    requires Dims(dims, nE) && Fits(X, |dims|) && i < |X.wM|
    requires S == Weighted(X.wM, SparsifyEntries(X.M, dims), SpreadWeights(X.Mw, dims, nE, |dims|))
    ensures forall j: nat :: j < |dims| ==> At(S.M, i, dims[j]) == At(X.M, i, j) && S.Mw[dims[j]] == X.Mw[j]
    ensures forall e: nat :: e < nE && e !in dims ==> At(S.M, i, e) == 0.0 && S.Mw[e] == 0.0
  {
    hide At, SpreadWeights, SparsifyEntries;
    forall e: nat | e < nE
      ensures forall j: nat :: j < |dims| && dims[j] == e ==> At(S.M, i, e) == At(X.M, i, j) && S.Mw[e] == X.Mw[j]
      ensures e !in dims ==> At(S.M, i, e) == 0.0 && S.Mw[e] == 0.0
    {
      SparsifyAt(X.M, dims, nE, i, e);
      SpreadAt(X.Mw, dims, nE, |dims|, e);
      assert dims[..|dims|] == dims;
    }
  }

  // ---------------------------------------------------------------- divisions

  /** An exchange matrix with positive shares, the weights of its own columns, and no stored row without weight. */
  ghost predicate Proper(X: Weighted, nE: nat)
  {
    Fits(X, nE) && Positive(X.M) && RowsScalable(X.M, X.wM) && OwnColumns(X)
  }

  /** A positive matrix with its own row sums has no stored row without weight. */
  lemma OwnRowsScalable(M: Triplets, m: nat, n: nat)
    requires InBounds(M, m, n) && Positive(M)
    ensures RowsScalable(M, RowSums(M, m, n))
  {
    hide Prod, Apply;
    forall k | 0 <= k < |M| ensures M[k].i < m && RowSums(M, m, n)[M[k].i] != 0.0 {
      PositiveApply(M, m, n, M[k].i);
    }
  }

  lemma ProperRows(X: Weighted, nE: nat)
    requires Proper(X, nE)
    ensures RowsScalable(X.M, X.wM)
  {
  }

  lemma ProperColumns(X: Weighted, nE: nat, j: nat)
    requires Proper(X, nE) && j < nE
    ensures X.Mw[j] >= 0.0
    ensures (exists k :: 0 <= k < |X.M| && X.M[k].j == j) ==> X.Mw[j] > 0.0
  {
    hide Prod, Apply;
    PositiveApply(Transpose(X.M), nE, |X.wM|, j);
    if exists k :: 0 <= k < |X.M| && X.M[k].j == j {
      var k :| 0 <= k < |X.M| && X.M[k].j == j;
      assert Transpose(X.M)[k].i == j;
    }
  }

  ghost predicate AllProper(Xs: seq<Weighted>, nE: nat)
  {
    forall k :: 0 <= k < |Xs| ==> Proper(Xs[k], nE)
  }

  lemma AllProperWeights(Xs: seq<Weighted>, nE: nat)
    requires AllProper(Xs, nE)
    ensures forall k :: 0 <= k < |Xs| ==> |Xs[k].Mw| == nE
  {
  }

  lemma {:induction false} TotalPositive(Xs: seq<Weighted>, nE: nat, n: nat, j: nat)
    requires AllProper(Xs, nE) && n <= |Xs| && j < nE
    ensures forall k :: 0 <= k < n ==> |Xs[k].Mw| == nE
    ensures TotalMw(Xs, nE, n)[j] >= 0.0
    ensures (exists k :: 0 <= k < n && Xs[k].Mw[j] > 0.0) ==> TotalMw(Xs, nE, n)[j] > 0.0
  {
    hide Proper;
    AllProperWeights(Xs, nE);
    if n > 0 {
      TotalPositive(Xs, nE, n - 1, j);
      ProperColumns(Xs[n - 1], nE, j);
    }
  }

  /** A row of the unscaled correction is a column of one of the new matrices. */
  lemma {:induction false} UnscaledEntry(X1s: seq<Weighted>, X0s: seq<Weighted>, nE: nat, n: nat, e: Entry)
    returns (k: nat, a: Entry, b: Entry)
    requires Paired(X1s, X0s, nE) && n <= |X1s| && e in Unscaled(X1s, X0s, nE, n)
    ensures k < n && a in X1s[k].M && a.j == e.i && a.i == b.i && b.j == e.j
    ensures || (exists c :: c in X1s[k].M && c.i == b.i && c.j == b.j)
            || (exists c :: c in X0s[k].M && c.i == b.i && c.j == b.j)
  {
    hide LocalCorrection, Fits, Prod;
    if e in Unscaled(X1s, X0s, nE, n - 1) {
      k, a, b := UnscaledEntry(X1s, X0s, nE, n - 1, e);
    } else {
      k := n - 1;
      FitsEntries(X1s, X0s, nE, k);
      a, b := LocalEntry(X1s[k], X0s[k], e);
    }
  }

  lemma LocalEntry(X1: Weighted, X0: Weighted, e: Entry) returns (a: Entry, b: Entry)
    requires forall k :: 0 <= k < |X1.M| ==> X1.M[k].i < |X1.wM|
    requires forall k :: 0 <= k < |X0.M| ==> X0.M[k].i < |X0.wM|
    requires e in LocalCorrection(X1, X0)
    ensures a in X1.M && a.j == e.i && a.i == b.i && b.j == e.j
    ensures (exists c :: c in X1.M && c.i == b.i && c.j == b.j) || exists c :: c in X0.M && c.i == b.i && c.j == b.j
  {
    hide Prod, Mul;
    var D := XvE(X0) + Negated(XvE(X1));
    var t;
    t, b := MulWitness(Transpose(X1.M), D, e);
    var k :| 0 <= k < |X1.M| && Transpose(X1.M)[k] == t;
    a := X1.M[k];
    var l :| 0 <= l < |D| && D[l] == b;
    if l < |X0.M| {
      assert X0.M[l] in X0.M;
    } else {
      assert X1.M[l - |X0.M|] in X1.M;
    }
  }

  /** With proper matrices the program never divides by zero. */
  lemma ProperDivisible(X1s: seq<Weighted>, X0s: seq<Weighted>, nE: nat)
    requires Paired(X1s, X0s, nE) && AllProper(X1s, nE) && AllProper(X0s, nE)
    ensures Divisible(X1s, X0s, nE)
  {
    hide Proper, Unscaled, TotalMw, Fits;
    var U, n := Unscaled(X1s, X0s, nE, |X1s|), |X1s|;
    UnscaledInBounds(X1s, X0s, nE, n);
    AllProperWeights(X1s, nE);
    forall l | 0 <= l < |U| ensures U[l].i < nE && TotalMw(X1s, nE, n)[U[l].i] != 0.0 {
      var k, a, b := UnscaledEntry(X1s, X0s, nE, n, U[l]);
      var p :| 0 <= p < |X1s[k].M| && X1s[k].M[p] == a;
      ProperColumns(X1s[k], nE, U[l].i);
      TotalPositive(X1s, nE, n, U[l].i);
    }
    forall k | 0 <= k < n ensures RowsScalable(X1s[k].M, X1s[k].wM) && RowsScalable(X0s[k].M, X0s[k].wM) {
      assert Proper(X1s[k], nE) && Proper(X0s[k], nE);
      ProperRows(X1s[k], nE);
      ProperRows(X0s[k], nE);
    }
  }

  // ---------------------------------------------------------------- the coupler

  /** Step t of a recorded run applied a list that denotes the correction from step t - 1. */
  ghost predicate Steps(hist: seq<seq<Weighted>>, corrections: seq<Triplets>, nE: nat)
  {
    && |hist| == |corrections|
    && forall t :: 0 < t < |hist| ==>
         Paired(hist[t], hist[t - 1], nE) && SameMatrix(corrections[t], Correction(hist[t], hist[t - 1], nE))
  }

  class GCMCoupler {
    const nE: nat
    var timespan: (real, real)
    var XuE0s: seq<Weighted>
    ghost var hist: seq<seq<Weighted>>       // exchange matrices of the steps since initialization
    ghost var corrections: seq<Triplets>     // what those steps returned

    constructor (nE: nat, timeStart: real)
      ensures Valid() && this.nE == nE && XuE0s == [] && hist == [] && timespan == (timeStart, timeStart)
    {
      this.nE := nE;
      timespan := (timeStart, timeStart);
      XuE0s := [];
      hist, corrections := [], [];
    }

    ghost predicate Valid()
      reads this
    {
      && Steps(hist, corrections, nE)
      && XuE0s == if |hist| == 0 then [] else hist[|hist| - 1]
    }

    /** couple on the root node; XuE1s is what the ice couplers hand back, already sparsified. */
    method Couple(time: real, XuE1s: seq<Weighted>, runIce: bool) returns (E1vE0c: Triplets)
      requires Valid() && (runIce ==> Paired(XuE1s, XuE0s, nE))
      modifies this
      ensures Valid() && timespan == (old(timespan).1, time) && XuE0s == XuE1s
      ensures !runIce ==> E1vE0c == [] && hist == [XuE1s]
      ensures runIce && |old(hist)| > 0 ==> hist == old(hist) + [XuE1s] && corrections == old(corrections) + [E1vE0c]
      ensures runIce ==> StrictlyOrdered(E1vE0c) && IndicesFrom(E1vE0c, Correction(XuE1s, old(XuE0s), nE))
      ensures runIce ==> SameMatrix(E1vE0c, Correction(XuE1s, old(XuE0s), nE))
    {
      hide SameMatrix, Correction, StrictlyOrdered, IndicesFrom, Paired;
      timespan := (timespan.1, time);
      E1vE0c := [];
      if runIce {
        var list := ComputeE1vE0c(XuE1s, XuE0s, nE);
        E1vE0c := list.tuples;
        if |hist| > 0 {
          hist, corrections := hist + [XuE1s], corrections + [E1vE0c];
        } else {
          hist, corrections := [XuE1s], [E1vE0c];
        }
      } else {
        hist, corrections := [XuE1s], [[]];
      }
      XuE0s := XuE1s;
    }
  }

  // ---------------------------------------------------------------- conservation over runs

  /** The elevation field of the climate model after step t, when every step applies I + E1vE0c to it. */
  ghost function FieldAfter(hist: seq<seq<Weighted>>, corrections: seq<Triplets>, nE: nat, x: seq<real>,
                            t: nat): (r: seq<real>)
    requires Steps(hist, corrections, nE) && |x| == nE && t < |hist|
    ensures |r| == nE
  {
    if t == 0 then x
    else
      var x0 := FieldAfter(hist, corrections, nE, x, t - 1);
      StepIsCorrected(hist, corrections, nE, x0, t);
      Plus(x0, Apply(corrections[t], x0, nE))
  }

  lemma StepIsCorrected(hist: seq<seq<Weighted>>, corrections: seq<Triplets>, nE: nat, x: seq<real>, t: nat)
    requires Steps(hist, corrections, nE) && |x| == nE && 0 < t < |hist|
    ensures InBounds(corrections[t], nE, nE) && Paired(hist[t], hist[t - 1], nE)
    ensures Plus(x, Apply(corrections[t], x, nE)) == Corrected(hist[t], hist[t - 1], nE, x)
  {
    hide SameMatrix, Correction, Paired, Apply, InBounds;
    CorrectionInBounds(hist[t], hist[t - 1], nE);
    SameMatrixSymmetric(corrections[t], Correction(hist[t], hist[t - 1], nE));
    SameMatrixMeans(Correction(hist[t], hist[t - 1], nE), corrections[t], nE, x);
  }

  lemma SameMatrixSymmetric(S: Triplets, T: Triplets)
    requires SameMatrix(S, T)
    ensures SameMatrix(T, S)
  {
    hide InBounds, Bilin;
  }

  /** The weights of every exchange matrix are its own row and column sums. */
  ghost predicate AllOwn(Xs: seq<Weighted>, nE: nat)
  {
    forall k :: 0 <= k < |Xs| ==> Fits(Xs[k], nE) && OwnRows(Xs[k]) && OwnColumns(Xs[k])
  }

  ghost predicate OwnRun(hist: seq<seq<Weighted>>, nE: nat)
  {
    forall t :: 0 <= t < |hist| ==> AllOwn(hist[t], nE)
  }

  /** No step of a run divides by 0. */
  ghost predicate DivisibleRun(hist: seq<seq<Weighted>>, nE: nat)
  {
    forall t :: 0 < t < |hist| ==> Paired(hist[t], hist[t - 1], nE) && Divisible(hist[t], hist[t - 1], nE)
  }

  lemma AllOwnWeights(Xs: seq<Weighted>, nE: nat)
    requires AllOwn(Xs, nE)
    ensures forall k :: 0 <= k < |Xs| ==> |Xs[k].Mw| == nE && OwnColumns(Xs[k]) && OwnRows(Xs[k])
  {
    hide OwnRows, OwnColumns;
  }

  /** The weights of the exchange cells are the same in two steps. */
  ghost predicate SameExchangeWeights(X1s: seq<Weighted>, X0s: seq<Weighted>)
  {
    |X1s| == |X0s| && forall k :: 0 <= k < |X1s| ==> X1s[k].wM == X0s[k].wM
  }

  lemma {:induction false} CarriedIsTotal(X1s: seq<Weighted>, X0s: seq<Weighted>, nE: nat, x: seq<real>, n: nat)
    requires Paired(X1s, X0s, nE) && |x| == nE && n <= |X1s| && SameExchangeWeights(X1s, X0s)
    requires forall k :: 0 <= k < |X0s| ==> OwnColumns(X0s[k]) && RowsScalable(X0s[k].M, X0s[k].wM)
    ensures forall k :: 0 <= k < n ==> |X0s[k].Mw| == nE
    ensures CarriedTotal(X1s, X0s, nE, x, n) == Dot(TotalMw(X0s, nE, n), x)
  {
    hide Prod, Exchange, Fits, OwnColumns, RowsScalable, InBounds;
    PairedWeights(X1s, X0s, nE);
    if n == 0 {
      DotZeroRight(x, Const(nE, 0.0));
      DotComm(x, Const(nE, 0.0));
    } else {
      CarriedIsTotal(X1s, X0s, nE, x, n - 1);
      FitsEntries(X1s, X0s, nE, n - 1);
      ExchangeTotal(X0s[n - 1], x);
      DotComm(TotalMw(X0s, nE, n), x);
      DotPlus(x, TotalMw(X0s, nE, n - 1), X0s[n - 1].Mw);
      DotComm(TotalMw(X0s, nE, n - 1), x);
      DotComm(X0s[n - 1].Mw, x);
    }
  }

  lemma PairedWeights(X1s: seq<Weighted>, X0s: seq<Weighted>, nE: nat)
    requires Paired(X1s, X0s, nE)
    ensures forall k :: 0 <= k < |X1s| ==> |X1s[k].Mw| == |X0s[k].Mw| == nE
  {
  }

  lemma DivisibleRows(X1s: seq<Weighted>, X0s: seq<Weighted>, nE: nat)
    requires Paired(X1s, X0s, nE) && Divisible(X1s, X0s, nE)
    ensures forall k :: 0 <= k < |X0s| ==> RowsScalable(X0s[k].M, X0s[k].wM)
  {
    hide RowsScalable;
  }

  /** After any step, the total of the corrected field is that of the exchange cell values before the step. */
  lemma StepTotal(hist: seq<seq<Weighted>>, corrections: seq<Triplets>, nE: nat, x: seq<real>, t: nat)
    requires Steps(hist, corrections, nE) && OwnRun(hist, nE) && DivisibleRun(hist, nE) && |x| == nE && 0 < t < |hist|
    ensures Paired(hist[t], hist[t - 1], nE) && forall k :: 0 <= k < |hist[t]| ==> |hist[t][k].Mw| == nE
    ensures Total(hist[t], nE, FieldAfter(hist, corrections, nE, x, t))
         == CarriedTotal(hist[t], hist[t - 1], nE, FieldAfter(hist, corrections, nE, x, t - 1), |hist[t]|)
  {
    hide AllOwn, OwnColumns, OwnRows, Corrected, Total, CarriedTotal, Drift, Correction, SameMatrix, Divisible, Paired;
    var x0 := FieldAfter(hist, corrections, nE, x, t - 1);
    AllOwnWeights(hist[t], nE);
    StepIsCorrected(hist, corrections, nE, x0, t);
    CorrectedTotal(hist[t], hist[t - 1], nE, x0);
    NoDrift(hist[t], hist[t - 1], nE, x0, |hist[t]|);
  }

  lemma OwnRunWeights(hist: seq<seq<Weighted>>, nE: nat)
    requires OwnRun(hist, nE)
    ensures forall u, k :: 0 <= u < |hist| && 0 <= k < |hist[u]| ==> |hist[u][k].Mw| == nE
  {
    hide OwnRows, OwnColumns;
    forall u | 0 <= u < |hist| ensures forall k :: 0 <= k < |hist[u]| ==> |hist[u][k].Mw| == nE {
      AllOwnWeights(hist[u], nE);
    }
  }

  /** Over every run whose exchange cell weights stay the same, the total of the elevation field never changes. */
  lemma {:induction false} RunTotal(hist: seq<seq<Weighted>>, corrections: seq<Triplets>, nE: nat, x: seq<real>, t: nat)
    requires Steps(hist, corrections, nE) && OwnRun(hist, nE) && DivisibleRun(hist, nE) && |x| == nE && t < |hist|
    requires forall u :: 0 < u < |hist| ==> SameExchangeWeights(hist[u], hist[u - 1])
    ensures forall u, k :: 0 <= u < |hist| && 0 <= k < |hist[u]| ==> |hist[u][k].Mw| == nE
    ensures Total(hist[t], nE, FieldAfter(hist, corrections, nE, x, t)) == Total(hist[0], nE, x)
  {
    hide AllOwn, OwnColumns, OwnRows, CarriedTotal, Correction, SameMatrix, Paired, Divisible, RowsScalable;
    OwnRunWeights(hist, nE);
    if t > 0 {
      var x0 := FieldAfter(hist, corrections, nE, x, t - 1);
      RunTotal(hist, corrections, nE, x, t - 1);
      StepTotal(hist, corrections, nE, x, t);
      AllOwnWeights(hist[t - 1], nE);
      DivisibleRows(hist[t], hist[t - 1], nE);
      CarriedIsTotal(hist[t], hist[t - 1], nE, x0, |hist[t]|);
    }
  }

  ghost predicate ProperRun(hist: seq<seq<Weighted>>, nE: nat)
  {
    forall t :: 0 <= t < |hist| ==> AllProper(hist[t], nE)
  }

  /** Runs of proper matrices never divide by 0. */
  lemma ProperRunDivisible(hist: seq<seq<Weighted>>, corrections: seq<Triplets>, nE: nat)
    requires Steps(hist, corrections, nE) && ProperRun(hist, nE)
    ensures DivisibleRun(hist, nE)
  {
    hide SameMatrix, Correction, Paired, Divisible, AllProper;
    forall t | 0 < t < |hist| ensures Paired(hist[t], hist[t - 1], nE) && Divisible(hist[t], hist[t - 1], nE) {
      ProperDivisible(hist[t], hist[t - 1], nE);
    }
  }

  // ---------------------------------------------------------------- no change, no correction

  lemma {:induction false} UnchangedForm(Xs: seq<Weighted>, nE: nat, n: nat, y: seq<real>, x: seq<real>)
    requires Paired(Xs, Xs, nE) && n <= |Xs| && |y| == |x| == nE
    ensures InBounds(Unscaled(Xs, Xs, nE, n), nE, nE) && Bilin(Unscaled(Xs, Xs, nE, n), y, x) == 0.0
  {
    hide Prod, LocalCorrection, Bilin, Exchange, Fits;
    UnscaledInBounds(Xs, Xs, nE, n);
    if n == 0 {
      BilinEmpty(y, x);
    } else {
      UnchangedForm(Xs, nE, n - 1, y, x);
      FitsEntries(Xs, Xs, nE, n - 1);
      var X := Xs[n - 1];
      assert Fits(X, nE);
      LocalForm(X, X, nE, y, x);
      var z := Minus(Exchange(X, x), Exchange(X, x));
      DotComm(z, Apply(X.M, y, |X.wM|));
      DotZeroRight(Apply(X.M, y, |X.wM|), z);
      BilinConcat(Unscaled(Xs, Xs, nE, n - 1), LocalCorrection(X, X), y, x);
    }
  }

  /** When a step leaves the exchange matrices as they were, the correction is the zero matrix. */
  lemma UnchangedMeansZero(Xs: seq<Weighted>, nE: nat, E1vE0c: Triplets, i: nat, j: nat)
    requires Paired(Xs, Xs, nE) && SameMatrix(E1vE0c, Correction(Xs, Xs, nE)) && i < nE && j < nE
    ensures At(E1vE0c, i, j) == 0.0
  {
    hide Prod, Bilin, Unscaled, TotalMw, Inverse, InBounds, Fits, SameMatrix;
    var C, y, x := Correction(Xs, Xs, nE), Unit(nE, i), Unit(nE, j);
    CorrectionInBounds(Xs, Xs, nE);
    WeightsFit(Xs, nE);
    var w := Inverse(TotalMw(Xs, nE, |Xs|));
    UnchangedForm(Xs, nE, |Xs|, Hadamard(y, w), x);
    BilinScaleRows(w, Unscaled(Xs, Xs, nE, |Xs|), y, x);
    BilinUnits(C, nE, nE, i, j);
    SameMatrixSymmetric(E1vE0c, C);
    SameMatrixMeans(C, E1vE0c, nE, x);
  }

  lemma WeightsFit(Xs: seq<Weighted>, nE: nat)
    requires Paired(Xs, Xs, nE)
    ensures forall k :: 0 <= k < |Xs| ==> |Xs[k].Mw| == nE
  {
  }

  // ---------------------------------------------------------------- the standard regridder

  /** XuE of an ice sheet: the unscaled XvE. */
  ghost function ExchangeMatrix(s: Sheet, ratio: seq<real>, correctA: bool): Weighted
    requires s.Valid() && s.AllInBounds() && |ratio| == s.Extent(E)
  {
    ComputeXvAE(s, E, ratio, RegridParams(false, correctA))
  }

  lemma ColumnsOfScaled(U: Triplets, m: nat, n: nat, ratio: seq<real>)
    requires InBounds(U, m, n) && |ratio| == n
    ensures InBounds(ScaleCols(U, ratio), m, n)
    ensures ColSums(ScaleCols(U, ratio), m, n) == Hadamard(ratio, ColSums(U, m, n))
  {
    hide Prod, Apply, Bilin;
    assert Transpose(ScaleCols(U, ratio)) == ScaleRows(ratio, Transpose(U)) by { TransposeScaled(U, ratio); }
    forall j: nat | j < n
      ensures ColSums(ScaleCols(U, ratio), m, n)[j] == Hadamard(ratio, ColSums(U, m, n))[j]
    {
      ApplyScaleRows(ratio, Transpose(U), Ones(m), n, j);
    }
  }

  lemma TransposeScaled(U: Triplets, ratio: seq<real>)
    requires forall k :: 0 <= k < |U| ==> U[k].j < |ratio|
    ensures Transpose(ScaleCols(U, ratio)) == ScaleRows(ratio, Transpose(U))
  {
    hide Prod;
    forall k | 0 <= k < |U| ensures Transpose(ScaleCols(U, ratio))[k] == ScaleRows(ratio, Transpose(U))[k] {
      ProdComm(U[k].v, ratio[U[k].j]);
    }
  }

  /** compute_IvAE hands the coupler column weights that are column sums always, and row weights if correctA is off. */
  lemma ExchangeMatrixSums(s: Sheet, ratio: seq<real>, correctA: bool)
    requires s.Valid() && s.AllInBounds() && |ratio| == s.Extent(E)
    ensures Fits(ExchangeMatrix(s, ratio, correctA), s.Extent(E)) && OwnColumns(ExchangeMatrix(s, ratio, correctA))
    ensures !correctA ==> OwnRows(ExchangeMatrix(s, ratio, correctA))
  {
    hide Prod, Apply, Ur, Sheet.AllInBounds, Sheet.Valid;
    UrInBounds(s, E, |s.cells|);
    ColumnsOfScaled(Ur(s, E, |s.cells|), s.nX, s.Extent(E), ratio);
  }

  /** With positive area ratios and no ice below the lowest elevation class, the coupler's matrices are proper. */
  lemma ExchangeMatrixProper(s: Sheet, ratio: seq<real>, correctA: bool)
    requires s.Valid() && s.AllInBounds() && NoExtrapolation(s) && |ratio| == s.Extent(E)
    requires correctA ==> AllPositive(ratio)
    ensures Proper(ExchangeMatrix(s, ratio, correctA), s.Extent(E))
  {
    hide Prod, Ur, Sheet.AllInBounds, Sheet.Valid, NoExtrapolation, OwnRows, OwnColumns, Fits, RowSums, ColSums;
    ExchangeMatrixSums(s, ratio, correctA);
    PositiveUr(s, E, |s.cells|);
    UrInBounds(s, E, |s.cells|);
    var U := Ur(s, E, |s.cells|);
    OwnRowsScalable(U, s.nX, s.Extent(E));
    if correctA {
      forall k | 0 <= k < |U| ensures Prod(U[k].v, ratio[U[k].j]) > 0.0 {
        ProdNonNegative(U[k].v, ratio[U[k].j]);
        ProdComm(U[k].v, ratio[U[k].j]);
      }
    }
  }

  /** The sheet has the same exchange cells and elevation classes; its ice surface may differ. */
  ghost predicate SameGeometry(s1: Sheet, s0: Sheet)
  {
    && s1.cells == s0.cells && s1.hcdefs == s0.hcdefs && s1.hc == s0.hc && s1.style == s0.style
    && s1.nA == s0.nA && s1.nX == s0.nX && |s1.elevmaskI| == |s0.elevmaskI|
  }

  ghost predicate SameMask(s1: Sheet, s0: Sheet)
  {
    forall k :: 0 <= k < |s1.cells| ==> (s1.Unmasked(s1.cells[k]) <==> s0.Unmasked(s1.cells[k]))
  }

  lemma {:induction false} SameScatter(s1: Sheet, s0: Sheet, f1: int -> real, f0: int -> real, n: nat)
    requires s1.Valid() && s0.Valid() && SameGeometry(s1, s0) && n <= |s1.cells|
    requires forall k :: 0 <= k < n ==> f1(k) == f0(k)
    ensures Scatter(s1, f1, n) == Scatter(s0, f0, n)
  {
    if n > 0 { SameScatter(s1, s0, f1, f0, n - 1); }
  }

  /** As long as the ice mask stays the same, so do the weights of the exchange cells. */
  lemma SameMaskSameWeights(s1: Sheet, s0: Sheet, ratio1: seq<real>, ratio0: seq<real>, correctA: bool)
    requires s1.Valid() && s1.AllInBounds() && s0.Valid() && s0.AllInBounds()
    requires SameGeometry(s1, s0) && SameMask(s1, s0) && |ratio1| == |ratio0| == s1.Extent(E)
    ensures ExchangeMatrix(s1, ratio1, correctA).wM == ExchangeMatrix(s0, ratio0, correctA).wM
  {
    hide Prod, Ur, Sheet.AllInBounds, Sheet.Valid, CellMean, Sheet.Unmasked;
    var n, u := |s1.cells|, Ones(s1.Extent(E));
    UrInBounds(s1, E, n);
    UrInBounds(s0, E, n);
    ApplyUr(s1, E, u, n);
    ApplyUr(s0, E, u, n);
    forall k | 0 <= k < n ensures CellTotal(s1, E, u)(k) == CellTotal(s0, E, u)(k) {
      ShareSum(s1, E, k);
      ShareSum(s0, E, k);
      ProdConst(CellMean(s1, E, u, k));
      ProdConst(CellMean(s0, E, u, k));
    }
    SameScatter(s1, s0, CellTotal(s1, E, u), CellTotal(s0, E, u), n);
  }

  // ---------------------------------------------------------------- locality

  ghost predicate SheetsOf(Xs: seq<Weighted>, sheets: seq<Sheet>, nE: nat)
  {
    && |Xs| == |sheets|
    && forall k :: 0 <= k < |Xs| ==> MatrixOf(Xs[k], sheets[k]) && sheets[k].Extent(E) == nE
  }

  /** X is an exchange matrix of s, with or without correction. */
  ghost predicate MatrixOf(X: Weighted, s: Sheet)
  {
    && s.Valid() && s.AllInBounds()
    && exists ratio: seq<real>, correctA: bool :: |ratio| == s.Extent(E) && X == ExchangeMatrix(s, ratio, correctA)
  }

  lemma ExchangeEntry(X: Weighted, s: Sheet, e: Entry) returns (c: nat)
    requires MatrixOf(X, s) && e in X.M
    ensures c < |s.cells| && s.cells[c].iX == e.i && BelongsTo(s, E, e.j, s.cells[c].iA)
  {
    hide Prod, Ur, BelongsTo, HasShare, Sheet.AllInBounds, RowSums, ColSums;
    var ratio: seq<real>, correctA: bool :| |ratio| == s.Extent(E) && X == ExchangeMatrix(s, ratio, correctA);
    UrInBounds(s, E, |s.cells|);
    var U := Ur(s, E, |s.cells|);
    var k :| 0 <= k < |X.M| && X.M[k] == e;
    assert U[k].i == e.i && U[k].j == e.j;
    c := UrEntry(s, E, |s.cells|, U[k]);
    ShareIsLocal(s, E, c, e.j);
  }

  lemma GeometryBelongs(s1: Sheet, s0: Sheet, j: nat, iA: nat)
    requires s1.Valid() && s0.Valid() && SameGeometry(s1, s0)
    ensures BelongsTo(s1, E, j, iA) <==> BelongsTo(s0, E, j, iA)
  {
  }

  lemma SameCell(s: Sheet, b: nat, c: nat)
    requires s.Valid() && b < |s.cells| && c < |s.cells| && s.cells[b].iX == s.cells[c].iX
    ensures b == c
  {
  }

  /**
   No entry of E1vE0c joins elevation cells of different atmosphere cells, so the check that the climate model
   interface makes on every entry never fires.
   */
  lemma E1vE0IsLocal(X1s: seq<Weighted>, X0s: seq<Weighted>, s1: seq<Sheet>, s0: seq<Sheet>, nE: nat,
                     E1vE0c: Triplets, e: Entry) returns (k: nat, iA: nat)
    requires Paired(X1s, X0s, nE) && SheetsOf(X1s, s1, nE) && SheetsOf(X0s, s0, nE)
    requires forall l :: 0 <= l < |X1s| ==> SameGeometry(s1[l], s0[l])
    requires IndicesFrom(E1vE0c, Correction(X1s, X0s, nE)) && e in E1vE0c
    ensures k < |s1| && s1[k].Valid() && BelongsTo(s1[k], E, e.i, iA) && BelongsTo(s1[k], E, e.j, iA)
  {
    hide Prod, Unscaled, MatrixOf, BelongsTo, Inverse, TotalMw, Fits, Sheet.Valid, Sheet.AllInBounds;
    var U := Unscaled(X1s, X0s, nE, |X1s|);
    var C := Correction(X1s, X0s, nE);
    UnscaledInBounds(X1s, X0s, nE, |X1s|);
    WeightsFitPair(X1s, X0s, nE);
    var d :| d in C && d.i == e.i && d.j == e.j;
    var l :| 0 <= l < |C| && C[l] == d;
    assert U[l].i == e.i && U[l].j == e.j;
    var a, b;
    k, a, b := UnscaledEntry(X1s, X0s, nE, |X1s|, U[l]);
    MatrixValid(X1s[k], s1[k]);
    MatrixValid(X0s[k], s0[k]);
    var c := ExchangeEntry(X1s[k], s1[k], a);
    iA := s1[k].cells[c].iA;
    if f :| f in X1s[k].M && f.i == b.i && f.j == b.j {
      var c' := ExchangeEntry(X1s[k], s1[k], f);
      SameCell(s1[k], c, c');
    } else {
      var f :| f in X0s[k].M && f.i == b.i && f.j == b.j;
      var c' := ExchangeEntry(X0s[k], s0[k], f);
      SameCell(s1[k], c, c');
      GeometryBelongs(s1[k], s0[k], e.j, iA);
    }
  }

  lemma WeightsFitPair(X1s: seq<Weighted>, X0s: seq<Weighted>, nE: nat)
    requires Paired(X1s, X0s, nE)
    ensures forall k :: 0 <= k < |X1s| ==> |X1s[k].Mw| == nE
  {
  }

  lemma MatrixValid(X: Weighted, s: Sheet)
    requires MatrixOf(X, s)
    ensures s.Valid() && s.AllInBounds()
  {
  }

  // ---------------------------------------------------------------- runs of moving ice surfaces

  ghost predicate SurfaceRun(sheets: seq<seq<Sheet>>, hist: seq<seq<Weighted>>, ratios: seq<seq<real>>, nE: nat)
  {
    && |hist| == |sheets|
    && forall t :: 0 <= t < |hist| ==> SurfaceStep(sheets[t], hist[t], ratios, nE)
  }

  /** The exchange matrices of a step belong to its ice sheets; correctA is off. */
  ghost predicate SurfaceStep(sheets: seq<Sheet>, Xs: seq<Weighted>, ratios: seq<seq<real>>, nE: nat)
  {
    && |Xs| == |sheets| == |ratios|
    && forall k :: 0 <= k < |Xs| ==> SurfaceSheet(sheets[k], Xs[k], ratios[k], nE)
  }

  ghost predicate SurfaceSheet(s: Sheet, X: Weighted, ratio: seq<real>, nE: nat)
  {
    s.Valid() && s.AllInBounds() && |ratio| == s.Extent(E) == nE && X == ExchangeMatrix(s, ratio, false)
  }

  /** Only the ice surface moves: the exchange cells and the ice mask stay. */
  ghost predicate OnlySurfaceMoves(s1: seq<Sheet>, s0: seq<Sheet>)
  {
    |s1| == |s0| && forall k :: 0 <= k < |s1| ==> SameGeometry(s1[k], s0[k]) && SameMask(s1[k], s0[k])
  }

  lemma SurfaceWeights(s1: seq<Sheet>, s0: seq<Sheet>, X1s: seq<Weighted>, X0s: seq<Weighted>, ratios: seq<seq<real>>,
                       nE: nat)
    requires SurfaceStep(s1, X1s, ratios, nE) && SurfaceStep(s0, X0s, ratios, nE) && OnlySurfaceMoves(s1, s0)
    ensures SameExchangeWeights(X1s, X0s)
  {
    hide Prod, Sheet.Valid, Sheet.AllInBounds, ExchangeMatrix, SameGeometry, SameMask;
    forall k | 0 <= k < |X1s| ensures X1s[k].wM == X0s[k].wM {
      SameMaskSameWeights(s1[k], s0[k], ratios[k], ratios[k], false);
    }
  }

  lemma SurfaceOwn(sheets: seq<Sheet>, Xs: seq<Weighted>, ratios: seq<seq<real>>, nE: nat)
    requires SurfaceStep(sheets, Xs, ratios, nE)
    ensures AllOwn(Xs, nE)
  {
    hide Prod, Sheet.Valid, Sheet.AllInBounds, ExchangeMatrix, Fits, OwnRows, OwnColumns;
    forall k | 0 <= k < |Xs| ensures Fits(Xs[k], nE) && OwnRows(Xs[k]) && OwnColumns(Xs[k]) {
      ExchangeMatrixSums(sheets[k], ratios[k], false);
    }
  }

  lemma SurfaceProper(sheets: seq<Sheet>, Xs: seq<Weighted>, ratios: seq<seq<real>>, nE: nat)
    requires SurfaceStep(sheets, Xs, ratios, nE) && forall k :: 0 <= k < |sheets| ==> NoExtrapolation(sheets[k])
    ensures AllProper(Xs, nE)
  {
    hide Prod, Sheet.Valid, Sheet.AllInBounds, NoExtrapolation, ExchangeMatrix, Proper;
    forall k | 0 <= k < |Xs| ensures Proper(Xs[k], nE) {
      ExchangeMatrixProper(sheets[k], ratios[k], false);
    }
  }

  /**
   Ice surfaces that rise and fall through the elevation classes, step after step, leave the total of the elevation
   field unchanged, as long as the ice mask stays and correctA is off.  Ice below the lowest class is extrapolated.
   */
  lemma SurfaceRunConserves(sheets: seq<seq<Sheet>>, hist: seq<seq<Weighted>>, ratios: seq<seq<real>>,
                            corrections: seq<Triplets>, nE: nat, x: seq<real>, t: nat)
    requires SurfaceRun(sheets, hist, ratios, nE) && Steps(hist, corrections, nE) && |x| == nE && t < |hist|
    requires DivisibleRun(hist, nE)
    requires forall u :: 0 < u < |sheets| ==> OnlySurfaceMoves(sheets[u], sheets[u - 1])
    ensures forall u, k :: 0 <= u < |hist| && 0 <= k < |hist[u]| ==> |hist[u][k].Mw| == nE
    ensures Total(hist[t], nE, FieldAfter(hist, corrections, nE, x, t)) == Total(hist[0], nE, x)
  {
    hide SurfaceStep, OnlySurfaceMoves, AllOwn, SameExchangeWeights, FieldAfter, Total, Steps, DivisibleRun;
    forall u | 0 <= u < |hist| ensures AllOwn(hist[u], nE) {
      SurfaceOwn(sheets[u], hist[u], ratios, nE);
    }
    forall u | 0 < u < |hist| ensures SameExchangeWeights(hist[u], hist[u - 1]) {
      SurfaceWeights(sheets[u], sheets[u - 1], hist[u], hist[u - 1], ratios, nE);
    }
    RunTotal(hist, corrections, nE, x, t);
  }

  /** If no ice lies below the lowest class, such a run never divides by 0. */
  lemma SurfaceRunDivisible(sheets: seq<seq<Sheet>>, hist: seq<seq<Weighted>>, ratios: seq<seq<real>>,
                            corrections: seq<Triplets>, nE: nat)
    requires SurfaceRun(sheets, hist, ratios, nE) && Steps(hist, corrections, nE)
    requires forall u, k :: 0 <= u < |sheets| && 0 <= k < |sheets[u]| ==> NoExtrapolation(sheets[u][k])
    ensures DivisibleRun(hist, nE)
  {
    hide SurfaceStep, AllProper, Steps, DivisibleRun, NoExtrapolation;
    forall u | 0 <= u < |hist| ensures AllProper(hist[u], nE) {
      SurfaceProper(sheets[u], hist[u], ratios, nE);
    }
    ProperRunDivisible(hist, corrections, nE);
  }
}
