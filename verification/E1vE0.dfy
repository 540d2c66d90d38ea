/**
 The correction E1vE0 between the elevation grids of two coupling steps (slib/icebin/e1ve0.cpp) and the coupling
 step that carries the exchange matrices along (GCMCoupler::couple).
 */
module E1vE0 {
  import opened Vectors
  import opened Sparse
  import opened RegridMatrices

  // ---------------------------------------------------------------- consolidate

  predicate IndexBelow(a: Entry, b: Entry)
  {
    a.i < b.i || (a.i == b.i && a.j < b.j)
  }

  predicate SameIndex(a: Entry, b: Entry)
  {
    a.i == b.i && a.j == b.j
  }

  ghost predicate Ordered(T: Triplets)
  {
    forall k, l :: 0 <= k < l < |T| ==> !IndexBelow(T[l], T[k])
  }

  ghost predicate StrictlyOrdered(T: Triplets)
  {
    forall k, l :: 0 <= k < l < |T| ==> IndexBelow(T[k], T[l])
  }

  ghost predicate HasIndex(S: Triplets, i: nat, j: nat)
  {
    exists e :: e in S && e.i == i && e.j == j
  }

  /** Every index of T is an index of S. */
  ghost predicate IndicesFrom(T: Triplets, S: Triplets)
  {
    forall e :: e in T ==> HasIndex(S, e.i, e.j)
  }

  function InsertEntry(T: Triplets, e: Entry): Triplets
  {
    var n := |T|;
    if n == 0 || !IndexBelow(e, T[n - 1]) then T + [e] else InsertEntry(T[..n - 1], e) + [T[n - 1]]
  }

  /** std::sort by index. */
  function SortEntries(T: Triplets): Triplets
  {
    if |T| == 0 then [] else InsertEntry(SortEntries(T[..|T| - 1]), T[|T| - 1])
  }

  lemma {:induction false} InsertOrdered(T: Triplets, e: Entry)
    requires Ordered(T)
    ensures Ordered(InsertEntry(T, e)) && multiset(InsertEntry(T, e)) == multiset(T) + multiset{e}
  {
    var n := |T|;
    if n > 0 && IndexBelow(e, T[n - 1]) {
      InsertOrdered(T[..n - 1], e);
      var r := InsertEntry(T[..n - 1], e);
      assert T == T[..n - 1] + [T[n - 1]];
      forall k | 0 <= k < |r| ensures !IndexBelow(T[n - 1], r[k]) {
        assert r[k] in multiset(r);
        if r[k] != e { assert r[k] in multiset(T[..n - 1]) && r[k] in T[..n - 1]; }
      }
    }
  }

  lemma {:induction false} SortOrders(T: Triplets)
    ensures Ordered(SortEntries(T)) && multiset(SortEntries(T)) == multiset(T)
  {
    if |T| > 0 {
      SortOrders(T[..|T| - 1]);
      InsertOrdered(SortEntries(T[..|T| - 1]), T[|T| - 1]);
      assert T == T[..|T| - 1] + [T[|T| - 1]];
    }
  }

  lemma {:induction false} InsertSame(T: Triplets, e: Entry)
    ensures SameMatrix(InsertEntry(T, e), T + [e])
  {
    hide SameMatrix;
    var n := |T|;
    if n > 0 && IndexBelow(e, T[n - 1]) {
      var S, t := T[..n - 1], [T[n - 1]];
      InsertSame(S, e);
      SameMatrixReflexive(t);
      SameMatrixReflexive(S);
      SameMatrixConcat(InsertEntry(S, e), S + [e], t, t);
      SameMatrixSwap([e], t);
      SameMatrixConcat(S, S, [e] + t, t + [e]);
      assert (S + [e]) + t == S + ([e] + t);
      assert S + (t + [e]) == T + [e];
      SameMatrixTransitive(InsertEntry(T, e), S + [e] + t, T + [e]);
    } else {
      SameMatrixReflexive(T + [e]);
    }
  }

  lemma {:induction false} SortSame(T: Triplets)
    ensures SameMatrix(SortEntries(T), T)
  {
    hide SameMatrix;
    if |T| == 0 {
      SameMatrixReflexive(T);
    } else {
      var S, e := T[..|T| - 1], T[|T| - 1];
      SortSame(S);
      InsertSame(SortEntries(S), e);
      SameMatrixReflexive([e]);
      SameMatrixConcat(SortEntries(S), S, [e], [e]);
      assert S + [e] == T;
      SameMatrixTransitive(SortEntries(T), SortEntries(S) + [e], T);
    }
  }

  lemma SameMatrixReflexive(T: Triplets)
    ensures SameMatrix(T, T)
  {
  }

  /** Adding the value of a second entry with the same index. */
  lemma MergeSame(S: Triplets, a: Entry, b: Entry)
    requires SameIndex(a, b)
    ensures SameMatrix(S + [Entry(a.i, a.j, a.v + b.v)], S + [a] + [b])
  {
    hide SameMatrix;
    var c := Entry(a.i, a.j, a.v + b.v);
    SameMatrixReflexive(S);
    PairSame(a, b, c);
    SameMatrixConcat(S, S, [c], [a, b]);
    assert S + [a] + [b] == S + [a, b];
  }

  lemma PairSame(a: Entry, b: Entry, c: Entry)
    requires SameIndex(a, b) && c == Entry(a.i, a.j, a.v + b.v)
    ensures SameMatrix([c], [a, b])
  {
    hide Prod, Bilin;
    forall m: nat, n: nat ensures InBounds([c], m, n) <==> InBounds([a, b], m, n) {
      assert [c][0] == c && [a, b][0] == a && [a, b][1] == b;
    }
    forall y: seq<real>, x: seq<real> | InBounds([c], |y|, |x|) ensures Bilin([c], y, x) == Bilin([a, b], y, x) {
      assert [c][0] == c && [a, b] == [a] + [b];
      BilinConcat([a], [b], y, x);
      BilinSingle(a, y, x);
      BilinSingle(b, y, x);
      BilinSingle(c, y, x);
      ProdPlus(x[a.j], a.v, b.v);
      ProdPlus(y[a.i], Prod(a.v, x[a.j]), Prod(b.v, x[a.j]));
    }
  }

  /** The first i sorted tuples have been merged into done. */
  ghost predicate Merged(done: Triplets, sorted: Triplets, i: nat)
  {
    && 0 < i <= |sorted| && |done| > 0
    && SameIndex(done[|done| - 1], sorted[i - 1])
    && StrictlyOrdered(done) && IndicesFrom(done, sorted) && SameMatrix(done, sorted[..i])
  }

  lemma MergedFirst(sorted: Triplets)
    requires |sorted| > 0
    ensures Merged(sorted[..1], sorted, 1)
  {
    hide SameMatrix;
    SameMatrixReflexive(sorted[..1]);
  }

  lemma ExtendSame(done: Triplets, sorted: Triplets, i: nat)
    requires i < |sorted| && SameMatrix(done, sorted[..i])
    ensures SameMatrix(done + [sorted[i]], sorted[..i + 1])
  {
    hide SameMatrix;
    SameMatrixReflexive([sorted[i]]);
    SameMatrixConcat(done, sorted[..i], [sorted[i]], [sorted[i]]);
    assert sorted[..i + 1] == sorted[..i] + [sorted[i]];
  }

  /** The next tuple has the index of the last merged one. */
  lemma MergedAdd(done: Triplets, sorted: Triplets, i: nat, r: Triplets)
    requires Merged(done, sorted, i) && i < |sorted| && SameIndex(done[|done| - 1], sorted[i])
    requires r == done[|done| - 1 := Entry(sorted[i].i, sorted[i].j, done[|done| - 1].v + sorted[i].v)]
    ensures Merged(r, sorted, i + 1)
  {
    hide SameMatrix;
    var S, a := done[..|done| - 1], done[|done| - 1];
    MergeSame(S, a, sorted[i]);
    assert done == S + [a];
    assert r == S + [Entry(a.i, a.j, a.v + sorted[i].v)];
    ExtendSame(done, sorted, i);
    SameMatrixTransitive(r, S + [a] + [sorted[i]], sorted[..i + 1]);
    forall e | e in r ensures HasIndex(sorted, e.i, e.j) {
      assert e in S || e == r[|r| - 1];
      if e in S { assert e in done; } else { assert a in done; }
    }
  }

  /** The next tuple has a new index. */
  lemma MergedAppend(done: Triplets, sorted: Triplets, i: nat)
    requires Merged(done, sorted, i) && i < |sorted| && Ordered(sorted) && !SameIndex(done[|done| - 1], sorted[i])
    ensures Merged(done + [sorted[i]], sorted, i + 1)
  {
    hide SameMatrix;
    assert !IndexBelow(sorted[i], sorted[i - 1]);
    ExtendSame(done, sorted, i);
  }

  /** A growing list of tuples, as filled by an accumulator. */
  class TupleList {
    var tuples: Triplets

    constructor ()
      ensures tuples == []
    {
      tuples := [];
    }

    /** Multiplies every tuple by the factor of its row. */
    method Scale(s: array<real>)
      requires forall k :: 0 <= k < |tuples| ==> tuples[k].i < s.Length
      modifies this
      ensures tuples == ScaleRows(s[..], old(tuples))
    {
      hide Prod;
      ghost var scaled := ScaleRows(s[..], tuples);
      for k := 0 to |tuples|
        invariant |tuples| == |scaled|
        invariant forall l :: 0 <= l < |scaled| ==> tuples[l] == if l < k then scaled[l] else old(tuples[l])
      {
        var e := tuples[k];
        tuples := tuples[k := Entry(e.i, e.j, Prod(s[e.i], e.v))];
      }
    }

    /**
     Sorts the tuples and adds up those with the same index, in place.  Afterwards no index occurs twice, and
     every coefficient of the matrix is what it was.
     */
    method Consolidate()
      modifies this
      ensures StrictlyOrdered(tuples) && SameMatrix(tuples, old(tuples)) && IndicesFrom(tuples, old(tuples))
    {
      hide SameMatrix, SortEntries, Merged, Ordered, IndexBelow;
      SameMatrixReflexive(tuples);
      if |tuples| < 2 { return; }
      tuples := SortEntries(tuples);
      ghost var sorted := tuples;
      SortOrders(old(tuples));
      assert |sorted| == |multiset(sorted)| == |multiset(old(tuples))| >= 2;
      var j := 0;
      MergedFirst(sorted);
      for i := 1 to |tuples|
        invariant |tuples| == |sorted| && j < i && tuples[i..] == sorted[i..]
        invariant Merged(tuples[..j + 1], sorted, i)
      {
        assert tuples[i] == tuples[i..][0] == sorted[i];
        ghost var done := tuples[..j + 1];
        if SameIndex(tuples[j], tuples[i]) {
          tuples := tuples[j := Entry(tuples[j].i, tuples[j].j, tuples[j].v + tuples[i].v)];
          MergedAdd(done, sorted, i, tuples[..j + 1]);
        } else {
          MergedAppend(done, sorted, i);
          j := j + 1;
          tuples := tuples[j := tuples[i]];
          assert tuples[..j + 1] == done + [sorted[i]];
        }
      }
      tuples := tuples[..j + 1];
      MergedAll(tuples, sorted, old(tuples));
    }
  }

  lemma MergedAll(done: Triplets, sorted: Triplets, before: Triplets)
    requires Merged(done, sorted, |sorted|) && sorted == SortEntries(before)
    ensures StrictlyOrdered(done) && SameMatrix(done, before) && IndicesFrom(done, before)
  {
    hide SameMatrix, SortEntries;
    SortOrders(before);
    SortSame(before);
    assert sorted[..|sorted|] == sorted;
    SameMatrixTransitive(done, sorted, before);
    forall e | e in done ensures HasIndex(before, e.i, e.j) {
      var f :| f in sorted && f.i == e.i && f.j == e.j;
      assert f in multiset(sorted);
      assert f in multiset(before);
    }
  }

  /** Without duplicates, every stored value is the coefficient itself. */
  lemma {:induction false} StoredValueIsCoefficient(T: Triplets, k: nat)
    requires StrictlyOrdered(T) && k < |T|
    ensures At(T, T[k].i, T[k].j) == T[k].v
  {
    var n := |T| - 1;
    if k < n {
      StoredValueIsCoefficient(T[..n], k);
      assert IndexBelow(T[k], T[n]);
    } else {
      NoCoefficient(T[..n], T[n]);
    }
  }

  lemma {:induction false} NoCoefficient(T: Triplets, e: Entry)
    requires forall k :: 0 <= k < |T| ==> IndexBelow(T[k], e)
    ensures At(T, e.i, e.j) == 0.0
  {
    if |T| > 0 {
      NoCoefficient(T[..|T| - 1], e);
      assert IndexBelow(T[|T| - 1], e);
    }
  }

  // ---------------------------------------------------------------- the correction matrix

  function Negated(T: Triplets): (r: Triplets)
    ensures |r| == |T| && forall k :: 0 <= k < |T| ==> r[k] == Entry(T[k].i, T[k].j, -T[k].v)
  {
    seq(|T|, k requires 0 <= k < |T| => Entry(T[k].i, T[k].j, -T[k].v))
  }

  /** An exchange matrix XuE of one ice sheet, in sparse elevation indices. */
  ghost predicate Fits(X: Weighted, nE: nat)
  {
    InBounds(X.M, |X.wM|, nE) && |X.Mw| == nE
  }

  /** The exchange matrices of two steps belong to the same ice sheets. */
  ghost predicate Paired(X1s: seq<Weighted>, X0s: seq<Weighted>, nE: nat)
  {
    |X1s| == |X0s| && forall k :: 0 <= k < |X1s| ==> Fits(X1s[k], nE) && Fits(X0s[k], nE) && |X1s[k].wM| == |X0s[k].wM|
  }

  /** XvE = diag(1 / wM) XuE */
  function XvE(X: Weighted): Triplets
    requires forall k :: 0 <= k < |X.M| ==> X.M[k].i < |X.wM|
  {
    ScaleRows(Inverse(X.wM), X.M)
  }

  /** E1uX (XvE0 - XvE1), the unscaled correction of one ice sheet. */
  function LocalCorrection(X1: Weighted, X0: Weighted): Triplets
    requires forall k :: 0 <= k < |X1.M| ==> X1.M[k].i < |X1.wM|
    requires forall k :: 0 <= k < |X0.M| ==> X0.M[k].i < |X0.wM|
  {
    Mul(Transpose(X1.M), XvE(X0) + Negated(XvE(X1)))
  }

  ghost function Unscaled(X1s: seq<Weighted>, X0s: seq<Weighted>, nE: nat, n: nat): Triplets
    requires Paired(X1s, X0s, nE) && n <= |X1s|
  {
    if n == 0 then [] else Unscaled(X1s, X0s, nE, n - 1) + LocalCorrection(X1s[n - 1], X0s[n - 1])
  }

  /** Weights of the elevation grid, summed over the first n ice sheets. */
  ghost function TotalMw(Xs: seq<Weighted>, nE: nat, n: nat): (r: seq<real>)
    requires n <= |Xs| && forall k :: 0 <= k < n ==> |Xs[k].Mw| == nE
    ensures |r| == nE
  {
    if n == 0 then Const(nE, 0.0) else Plus(TotalMw(Xs, nE, n - 1), Xs[n - 1].Mw)
  }

  ghost function Correction(X1s: seq<Weighted>, X0s: seq<Weighted>, nE: nat): Triplets
    requires Paired(X1s, X0s, nE)
  {
    UnscaledInBounds(X1s, X0s, nE, |X1s|);
    ScaleRows(Inverse(TotalMw(X1s, nE, |X1s|)), Unscaled(X1s, X0s, nE, |X1s|))
  }

  lemma LocalInBounds(X1: Weighted, X0: Weighted, nE: nat)
    requires Fits(X1, nE) && Fits(X0, nE) && |X1.wM| == |X0.wM|
    ensures InBounds(LocalCorrection(X1, X0), nE, nE)
  {
    InBoundsConcat(XvE(X0), Negated(XvE(X1)), |X1.wM|, nE);
    MulInBounds(Transpose(X1.M), XvE(X0) + Negated(XvE(X1)), nE, |X1.wM|, nE);
  }

  lemma {:induction false} UnscaledInBounds(X1s: seq<Weighted>, X0s: seq<Weighted>, nE: nat, n: nat)
    requires Paired(X1s, X0s, nE) && n <= |X1s|
    ensures InBounds(Unscaled(X1s, X0s, nE, n), nE, nE)
  {
    hide LocalCorrection, Fits;
    if n > 0 {
      UnscaledInBounds(X1s, X0s, nE, n - 1);
      LocalInBounds(X1s[n - 1], X0s[n - 1], nE);
      FitsEntries(X1s, X0s, nE, n - 1);
      InBoundsConcat(Unscaled(X1s, X0s, nE, n - 1), LocalCorrection(X1s[n - 1], X0s[n - 1]), nE, nE);
    }
  }

  lemma FitsEntries(X1s: seq<Weighted>, X0s: seq<Weighted>, nE: nat, k: nat)
    requires Paired(X1s, X0s, nE) && k < |X1s|
    ensures |X1s[k].wM| == |X0s[k].wM| && |X1s[k].Mw| == |X0s[k].Mw| == nE
    ensures InBounds(X1s[k].M, |X1s[k].wM|, nE) && InBounds(X0s[k].M, |X0s[k].wM|, nE)
    ensures forall l :: 0 <= l < |X1s[k].M| ==> X1s[k].M[l].i < |X1s[k].wM|
    ensures forall l :: 0 <= l < |X0s[k].M| ==> X0s[k].M[l].i < |X0s[k].wM|
  {
  }

  lemma UnscaledNext(X1s: seq<Weighted>, X0s: seq<Weighted>, nE: nat, k: nat)
    requires Paired(X1s, X0s, nE) && k < |X1s|
    ensures |X0s| == |X1s|
    ensures forall l :: 0 <= l < |X1s[k].M| ==> X1s[k].M[l].i < |X1s[k].wM|
    ensures forall l :: 0 <= l < |X0s[k].M| ==> X0s[k].M[l].i < |X0s[k].wM|
    ensures Unscaled(X1s, X0s, nE, k + 1) == Unscaled(X1s, X0s, nE, k) + LocalCorrection(X1s[k], X0s[k])
    ensures forall l :: 0 <= l < |X1s| ==> |X1s[l].Mw| == nE
    ensures TotalMw(X1s, nE, k + 1) == Plus(TotalMw(X1s, nE, k), X1s[k].Mw)
  {
    hide LocalCorrection;
    FitsEntries(X1s, X0s, nE, k);
  }

  method Invert(s: array<real>)
    modifies s
    ensures s[..] == Inverse(old(s[..]))
  {
    hide Recip;
    for i := 0 to s.Length
      invariant forall l :: 0 <= l < s.Length ==> s[l] == if l < i then Recip(old(s[l])) else old(s[l])
    {
      s[i] := Recip(s[i]);
    }
  }

  /** compute_E1vE0c: the correction, consolidated. */
  method ComputeE1vE0c(X1s: seq<Weighted>, X0s: seq<Weighted>, nE: nat) returns (E1vE0c: TupleList)
    requires Paired(X1s, X0s, nE)
    ensures fresh(E1vE0c) && StrictlyOrdered(E1vE0c.tuples)
    ensures SameMatrix(E1vE0c.tuples, Correction(X1s, X0s, nE))
    ensures IndicesFrom(E1vE0c.tuples, Correction(X1s, X0s, nE))
  {
    hide SameMatrix, LocalCorrection, Fits, Paired, Plus, Inverse, StrictlyOrdered, IndicesFrom, Unscaled, TotalMw;
    E1vE0c := new TupleList();
    var sE1 := new real[nE](_ => 0.0);
    NoSheets(X1s, X0s, nE, sE1[..]);
    for k := 0 to |X1s|
      invariant fresh(E1vE0c) && fresh(sE1)
      invariant forall l :: 0 <= l < k ==> |X1s[l].Mw| == nE
      invariant E1vE0c.tuples == Unscaled(X1s, X0s, nE, k) && sE1[..] == TotalMw(X1s, nE, k)
    {
      UnscaledNext(X1s, X0s, nE, k);
      E1vE0c.tuples := E1vE0c.tuples + LocalCorrection(X1s[k], X0s[k]);
      AddInto(sE1, X1s[k].Mw);
    }
    UnscaledInBounds(X1s, X0s, nE, |X1s|);
    Invert(sE1);
    E1vE0c.Scale(sE1);
    E1vE0c.Consolidate();
  }

  lemma NoSheets(X1s: seq<Weighted>, X0s: seq<Weighted>, nE: nat, s: seq<real>)
    requires Paired(X1s, X0s, nE) && |s| == nE && forall k :: 0 <= k < nE ==> s[k] == 0.0
    ensures Unscaled(X1s, X0s, nE, 0) == [] && s == TotalMw(X1s, nE, 0)
  {
  }

  // ---------------------------------------------------------------- what the correction does

  lemma {:induction false} BilinNegated(T: Triplets, y: seq<real>, x: seq<real>)
    requires InBounds(T, |y|, |x|)
    ensures Bilin(Negated(T), y, x) == -Bilin(T, y, x)
  {
    hide Prod;
    if |T| > 0 {
      var S, e := T[..|T| - 1], T[|T| - 1];
      BilinNegated(S, y, x);
      assert Negated(T)[..|T| - 1] == Negated(S);
      ProdNegated(y[e.i], e.v, x[e.j]);
    }
  }

  lemma ProdNegated(a: real, b: real, c: real)
    ensures Prod(a, Prod(-b, c)) == -Prod(a, Prod(b, c))
  {
  }

  /** XvE x */
  ghost function Exchange(X: Weighted, x: seq<real>): (r: seq<real>)
    requires InBounds(X.M, |X.wM|, |x|)
    ensures |r| == |X.wM|
  {
    Apply(XvE(X), x, |X.wM|)
  }

  lemma ApplyDifference(X1: Weighted, X0: Weighted, x: seq<real>)
    requires InBounds(X1.M, |X1.wM|, |x|) && InBounds(X0.M, |X1.wM|, |x|) && |X1.wM| == |X0.wM|
    ensures InBounds(XvE(X0) + Negated(XvE(X1)), |X1.wM|, |x|)
    ensures Apply(XvE(X0) + Negated(XvE(X1)), x, |X1.wM|) == Minus(Exchange(X0, x), Exchange(X1, x))
  {
    hide Prod, Bilin, Apply;
    var p, D := |X1.wM|, XvE(X0) + Negated(XvE(X1));
    InBoundsConcat(XvE(X0), Negated(XvE(X1)), p, |x|);
    forall i: nat | i < p ensures Apply(D, x, p)[i] == Minus(Exchange(X0, x), Exchange(X1, x))[i] {
      ApplyElement(D, x, p, i);
      ApplyElement(XvE(X0), x, p, i);
      ApplyElement(XvE(X1), x, p, i);
      BilinConcat(XvE(X0), Negated(XvE(X1)), Unit(p, i), x);
      BilinNegated(XvE(X1), Unit(p, i), x);
    }
  }

  lemma LocalForm(X1: Weighted, X0: Weighted, nE: nat, y: seq<real>, x: seq<real>)
    requires Fits(X1, nE) && Fits(X0, nE) && |X1.wM| == |X0.wM| && |y| == |x| == nE
    ensures InBounds(LocalCorrection(X1, X0), nE, nE)
    ensures Bilin(LocalCorrection(X1, X0), y, x)
         == Dot(Minus(Exchange(X0, x), Exchange(X1, x)), Apply(X1.M, y, |X1.wM|))
  {
    hide Prod, Bilin, Apply, Exchange, XvE, Negated;
    var p, D := |X1.wM|, XvE(X0) + Negated(XvE(X1));
    LocalInBounds(X1, X0, nE);
    ApplyDifference(X1, X0, x);
    BilinMul(Transpose(X1.M), D, y, p, x);
    var v := Minus(Exchange(X0, x), Exchange(X1, x));
    BilinTranspose(X1.M, v, y);
    DotApply(X1.M, v, y);
  }

  /** The total of the elevation field over the exchange grid cells, had they kept the values given by the old step. */
  ghost function CarriedTotal(X1s: seq<Weighted>, X0s: seq<Weighted>, nE: nat, x: seq<real>, n: nat): real
    requires Paired(X1s, X0s, nE) && |x| == nE && n <= |X1s|
  {
    if n == 0 then 0.0
    else
      FitsEntries(X1s, X0s, nE, n - 1);
      CarriedTotal(X1s, X0s, nE, x, n - 1) + Dot(X1s[n - 1].wM, Exchange(X0s[n - 1], x))
  }

  /** What goes astray where the stored weights of the exchange cells are not the row sums of the matrix. */
  ghost function SheetDrift(X1: Weighted, X0: Weighted, nE: nat, x: seq<real>): real
    requires Fits(X1, nE) && Fits(X0, nE) && |X1.wM| == |X0.wM| && |x| == nE
  {
    Dot(Minus(RowSums(X1.M, |X1.wM|, nE), X1.wM), Minus(Exchange(X0, x), Exchange(X1, x)))
  }

  ghost function Drift(X1s: seq<Weighted>, X0s: seq<Weighted>, nE: nat, x: seq<real>, n: nat): real
    requires Paired(X1s, X0s, nE) && |x| == nE && n <= |X1s|
  {
    if n == 0 then 0.0
    else Drift(X1s, X0s, nE, x, n - 1) + SheetDrift(X1s[n - 1], X0s[n - 1], nE, x)
  }

  /** Nothing that the program divides by is zero. */
  ghost predicate Divisible(X1s: seq<Weighted>, X0s: seq<Weighted>, nE: nat)
    requires Paired(X1s, X0s, nE)
  {
    && RowsScalable(Unscaled(X1s, X0s, nE, |X1s|), TotalMw(X1s, nE, |X1s|))
    && forall k :: 0 <= k < |X1s| ==> RowsScalable(X1s[k].M, X1s[k].wM) && RowsScalable(X0s[k].M, X0s[k].wM)
  }

  /** Mw holds the column sums, as compute_IvAE leaves it. */
  ghost predicate OwnColumns(X: Weighted)
  {
    InBounds(X.M, |X.wM|, |X.Mw|) && X.Mw == ColSums(X.M, |X.wM|, |X.Mw|)
  }

  /** wM holds the row sums, as compute_IvAE leaves it when correctA is off. */
  ghost predicate OwnRows(X: Weighted)
  {
    InBounds(X.M, |X.wM|, |X.Mw|) && X.wM == RowSums(X.M, |X.wM|, |X.Mw|)
  }

  /** The weighted total of an elevation field is the weighted total of its exchange cell values. */
  lemma ExchangeTotal(X: Weighted, x: seq<real>)
    requires OwnColumns(X) && |x| == |X.Mw| && RowsScalable(X.M, X.wM)
    ensures Dot(X.wM, Exchange(X, x)) == Dot(X.Mw, x)
  {
    hide Prod, Bilin, Apply, Inverse;
    var w := X.wM;
    DotApply(XvE(X), w, x);
    BilinScaleRows(Inverse(w), X.M, w, x);
    forall k | 0 <= k < |X.M| ensures Hadamard(w, Inverse(w))[X.M[k].i] == Ones(|w|)[X.M[k].i] {
      InverseUndoes(w, X.M[k].i);
    }
    BilinSameRows(X.M, Hadamard(w, Inverse(w)), Ones(|w|), x);
    DotApplyTranspose(X.M, Ones(|w|), x);
  }

  lemma DotMinusLeft(a: seq<real>, b: seq<real>, c: seq<real>)
    requires |a| == |b| == |c|
    ensures Dot(Minus(a, b), c) == Dot(a, c) - Dot(b, c)
  {
    hide Dot;
    DotComm(Minus(a, b), c);
    DotMinus(c, a, b);
    DotComm(a, c);
    DotComm(b, c);
  }

  /** One sheet's share of the corrected total. */
  lemma SheetTotal(X1: Weighted, X0: Weighted, nE: nat, x: seq<real>)
    requires Fits(X1, nE) && Fits(X0, nE) && |X1.wM| == |X0.wM| && |x| == nE
    requires OwnColumns(X1) && RowsScalable(X1.M, X1.wM)
    ensures InBounds(LocalCorrection(X1, X0), nE, nE)
    ensures Dot(X1.Mw, x) + Bilin(LocalCorrection(X1, X0), Ones(nE), x)
         == Dot(X1.wM, Exchange(X0, x)) + SheetDrift(X1, X0, nE, x)
  {
    hide Prod, Bilin, Apply, Exchange, XvE, Negated, Dot, OwnColumns, RowsScalable, LocalCorrection;
    LocalForm(X1, X0, nE, Ones(nE), x);
    ExchangeTotal(X1, x);
    var r, w, v0, v1 := RowSums(X1.M, |X1.wM|, nE), X1.wM, Exchange(X0, x), Exchange(X1, x);
    DotComm(Minus(v0, v1), r);
    DotMinusLeft(r, w, Minus(v0, v1));
    DotMinus(w, v0, v1);
  }

  lemma {:induction false} AllSheetTotals(X1s: seq<Weighted>, X0s: seq<Weighted>, nE: nat, x: seq<real>, n: nat)
    requires Paired(X1s, X0s, nE) && |x| == nE && n <= |X1s|
    requires forall k :: 0 <= k < |X1s| ==> OwnColumns(X1s[k]) && RowsScalable(X1s[k].M, X1s[k].wM)
    ensures InBounds(Unscaled(X1s, X0s, nE, n), nE, nE)
    ensures forall k :: 0 <= k < |X1s| ==> |X1s[k].Mw| == nE
    ensures Dot(TotalMw(X1s, nE, n), x) + Bilin(Unscaled(X1s, X0s, nE, n), Ones(nE), x)
         == CarriedTotal(X1s, X0s, nE, x, n) + Drift(X1s, X0s, nE, x, n)
  {
    hide Prod, Bilin, Exchange, OwnColumns, RowsScalable, LocalCorrection, SheetDrift;
    UnscaledInBounds(X1s, X0s, nE, n);
    if n == 0 {
      DotZeroRight(x, Const(nE, 0.0));
      DotComm(x, Const(nE, 0.0));
      BilinEmpty(Ones(nE), x);
    } else {
      AllSheetTotals(X1s, X0s, nE, x, n - 1);
      SheetTotal(X1s[n - 1], X0s[n - 1], nE, x);
      BilinConcat(Unscaled(X1s, X0s, nE, n - 1), LocalCorrection(X1s[n - 1], X0s[n - 1]), Ones(nE), x);
      DotComm(TotalMw(X1s, nE, n), x);
      DotPlus(x, TotalMw(X1s, nE, n - 1), X1s[n - 1].Mw);
      DotComm(TotalMw(X1s, nE, n - 1), x);
      DotComm(X1s[n - 1].Mw, x);
    }
  }

  /** (I + E1vE0c) x */
  ghost function Corrected(X1s: seq<Weighted>, X0s: seq<Weighted>, nE: nat, x: seq<real>): (r: seq<real>)
    requires Paired(X1s, X0s, nE) && |x| == nE
    ensures |r| == nE
  {
    CorrectionInBounds(X1s, X0s, nE);
    Plus(x, Apply(Correction(X1s, X0s, nE), x, nE))
  }

  lemma CorrectionInBounds(X1s: seq<Weighted>, X0s: seq<Weighted>, nE: nat)
    requires Paired(X1s, X0s, nE)
    ensures InBounds(Correction(X1s, X0s, nE), nE, nE)
  {
    UnscaledInBounds(X1s, X0s, nE, |X1s|);
  }

  /** Total of an elevation field, in the weights of the elevation grid of a step. */
  ghost function Total(Xs: seq<Weighted>, nE: nat, x: seq<real>): real
    requires |x| == nE && forall k :: 0 <= k < |Xs| ==> |Xs[k].Mw| == nE
  {
    Dot(TotalMw(Xs, nE, |Xs|), x)
  }

  /**
   The corrected field has, in the new weights, the total that the old exchange cell values have in the new
   exchange cell weights, up to the drift.
   */
  lemma CorrectedTotal(X1s: seq<Weighted>, X0s: seq<Weighted>, nE: nat, x: seq<real>)
    requires Paired(X1s, X0s, nE) && |x| == nE && Divisible(X1s, X0s, nE)
    requires forall k :: 0 <= k < |X1s| ==> OwnColumns(X1s[k])
    ensures forall k :: 0 <= k < |X1s| ==> |X1s[k].Mw| == nE
    ensures Total(X1s, nE, Corrected(X1s, X0s, nE, x))
         == CarriedTotal(X1s, X0s, nE, x, |X1s|) + Drift(X1s, X0s, nE, x, |X1s|)
  {
    hide Prod, Bilin, Apply, Exchange, OwnColumns, LocalCorrection, Drift, CarriedTotal, Dot, TotalMw, Unscaled,
      Inverse;
    AllSheetTotals(X1s, X0s, nE, x, |X1s|);
    var w, U := TotalMw(X1s, nE, |X1s|), Unscaled(X1s, X0s, nE, |X1s|);
    CorrectionInBounds(X1s, X0s, nE);
    DotPlus(w, x, Apply(Correction(X1s, X0s, nE), x, nE));
    DotApply(Correction(X1s, X0s, nE), w, x);
    BilinScaleRows(Inverse(w), U, w, x);
    forall k | 0 <= k < |U| ensures Hadamard(w, Inverse(w))[U[k].i] == Ones(nE)[U[k].i] {
      InverseUndoes(w, U[k].i);
    }
    BilinSameRows(U, Hadamard(w, Inverse(w)), Ones(nE), x);
  }

  lemma {:induction false} NoDrift(X1s: seq<Weighted>, X0s: seq<Weighted>, nE: nat, x: seq<real>, n: nat)
    requires Paired(X1s, X0s, nE) && |x| == nE && n <= |X1s|
    requires forall k :: 0 <= k < |X1s| ==> OwnRows(X1s[k])
    ensures Drift(X1s, X0s, nE, x, n) == 0.0
  {
    hide Prod, Exchange, RowSums;
    if n > 0 {
      NoDrift(X1s, X0s, nE, x, n - 1);
      var X1, X0 := X1s[n - 1], X0s[n - 1];
      var z, v := Minus(RowSums(X1.M, |X1.wM|, nE), X1.wM), Minus(Exchange(X0, x), Exchange(X1, x));
      DotComm(z, v);
      DotZeroRight(v, z);
    }
  }
}
