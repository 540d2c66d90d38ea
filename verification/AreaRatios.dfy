/**
 Area ratios of projected atmosphere cells (sApvA and sEpvE in slib/icebin/IceRegridder.cpp), and what they cancel to
 in the matrices between the atmosphere and elevation grids.
 */
module AreaRatios {
  import opened Vectors
  import opened Sparse
  import opened Indexing
  import opened VerticalInterp
  import opened ExchangeGrid
  import opened RegridMatrices
  import opened RegridProperties

  /** Native and projected area of every atmosphere cell. */
  datatype Areas = Areas(native: seq<real>, proj: seq<real>) {
    ghost predicate Valid()
    {
      |native| == |proj| && forall a :: 0 <= a < |native| ==> native[a] > 0.0 && proj[a] > 0.0
    }

    /** Turns projected areas into native ones. */
    function Ratio(a: nat): (r: real)
      requires a < |native| == |proj| && proj[a] > 0.0
      ensures Prod(r, proj[a]) == native[a]
    {
      Quotient(native[a], proj[a]);
      native[a] / proj[a]
    }
  }

  lemma Quotient(n: real, p: real)
    requires p > 0.0
    ensures Prod(n / p, p) == n
  {
  }

  /** A corrected weight is the same part of the native area as the uncorrected one is of the projected area. */
  lemma CorrectedPart(areas: Areas, a: nat, w: real)
    requires areas.Valid() && a < |areas.native|
    ensures Prod(areas.proj[a], Prod(areas.Ratio(a), w)) == Prod(areas.native[a], w)
  {
    hide Prod, Areas.Ratio;
    ProdAssoc(areas.proj[a], areas.Ratio(a), w);
    ProdComm(areas.proj[a], areas.Ratio(a));
  }

  /** The areas that init sets up: without a projection the projected area is the native one. */
  function InitAreas(native: seq<real>, sproj: string, projected: seq<real>): Areas
  {
    Areas(native, if sproj == "" then native else projected)
  }

  method SApvA(areas: Areas) returns (w: Triplets)
    requires areas.Valid()
    ensures |w| == |areas.native| && forall a :: 0 <= a < |w| ==> w[a] == Entry(a, a, areas.Ratio(a))
    ensures forall a :: 0 <= a < |w| ==> Prod(w[a].v, areas.proj[a]) == areas.native[a]
  {
    w := [];
    for id := 0 to |areas.native|
      invariant |w| == id && forall a :: 0 <= a < id ==> w[a] == Entry(a, a, areas.Ratio(a))
    {
      w := w + [Entry(id, id, areas.native[id] / areas.proj[id])];
    }
  }

  /** Diagonal entries of the first n classes of cell a. */
  ghost function ClassRatios(areas: Areas, hc: Shape, nhc: nat, a: nat, n: nat): Triplets
    requires areas.Valid() && ElevationIndexing(hc, |areas.native|, nhc) && a < |areas.native| && n <= nhc
  {
    if n == 0 then []
    else
      ElevationRoundTrip(hc, |areas.native|, nhc, a, n - 1);
      var e := ElevationIndex(hc, a, n - 1);
      ClassRatios(areas, hc, nhc, a, n - 1) + [Entry(e, e, areas.Ratio(a))]
  }

  ghost function CellRatios(areas: Areas, hc: Shape, nhc: nat, n: nat): Triplets
    requires areas.Valid() && ElevationIndexing(hc, |areas.native|, nhc) && n <= |areas.native|
  {
    if n == 0 then [] else CellRatios(areas, hc, nhc, n - 1) + ClassRatios(areas, hc, nhc, n - 1, nhc)
  }

  method SEpvE(areas: Areas, hc: Shape, nhc: nat) returns (w: Triplets)
    requires areas.Valid() && ElevationIndexing(hc, |areas.native|, nhc)
    ensures w == CellRatios(areas, hc, nhc, |areas.native|)
    ensures forall a: nat, h: nat :: a < |areas.native| && h < nhc ==>
              0 <= ElevationIndex(hc, a, h) && HoldsRatio(areas, w, a, ElevationIndex(hc, a, h))
  {
    hide ElevationIndexing, ElevationIndex, HoldsRatio;
    w := [];
    for id := 0 to |areas.native|
      invariant w == CellRatios(areas, hc, nhc, id)
    {
      ghost var before := w;
      for ihp := 0 to nhc
        invariant w == before + ClassRatios(areas, hc, nhc, id, ihp)
      {
        ZeroBased(hc, |areas.native|, nhc);
        var indexE := TupleToIndex(hc, id, ihp);
        ElevationRoundTrip(hc, |areas.native|, nhc, id, ihp);
        w := w + [Entry(indexE, indexE, areas.native[id] / areas.proj[id])];
      }
    }
    IndexingIsValid(hc, |areas.native|, nhc);
    forall a: nat, h: nat | a < |areas.native| && h < nhc
      ensures 0 <= ElevationIndex(hc, a, h) && HoldsRatio(areas, w, a, ElevationIndex(hc, a, h))
    {
      RatioOfClass(areas, hc, nhc, |areas.native|, a, h);
      RatioHeld(areas, w, a, ElevationIndex(hc, a, h));
    }
  }

  /** The diagonal element e turns the projected area of cell a into its native area. */
  ghost predicate HoldsRatio(areas: Areas, w: Triplets, a: nat, e: nat)
    requires areas.Valid() && a < |areas.native|
  {
    Prod(At(w, e, e), areas.proj[a]) == areas.native[a]
  }

  lemma RatioHeld(areas: Areas, w: Triplets, a: nat, e: nat)
    requires areas.Valid() && a < |areas.native| && At(w, e, e) == areas.Ratio(a)
    ensures HoldsRatio(areas, w, a, e)
  {
    hide Areas.Ratio, At;
  }

  lemma ZeroBased(hc: Shape, nA: nat, nhc: nat)
    requires ElevationIndexing(hc, nA, nhc)
    ensures hc.Valid() && hc.Rank() == 2 && hc.base == [0, 0]
  {
  }

  lemma {:induction false} ClassRatioAt(areas: Areas, hc: Shape, nhc: nat, b: nat, n: nat, a: nat, h: nat)
    requires areas.Valid() && ElevationIndexing(hc, |areas.native|, nhc) && b < |areas.native| && n <= nhc
    requires a < |areas.native| && h < nhc
    ensures 0 <= ElevationIndex(hc, a, h)
    ensures At(ClassRatios(areas, hc, nhc, b, n), ElevationIndex(hc, a, h), ElevationIndex(hc, a, h))
         == if a == b && h < n then areas.Ratio(a) else 0.0
  {
    hide ElevationIndexing, ElevationIndex, Areas.Ratio;
    IndexingIsValid(hc, |areas.native|, nhc);
    ElevationRoundTrip(hc, |areas.native|, nhc, a, h);
    if n > 0 {
      ClassRatioAt(areas, hc, nhc, b, n - 1, a, h);
      ElevationRoundTrip(hc, |areas.native|, nhc, b, n - 1);
      var x, e := ElevationIndex(hc, a, h), ElevationIndex(hc, b, n - 1);
      AtAppend(ClassRatios(areas, hc, nhc, b, n - 1), Entry(e, e, areas.Ratio(b)), x, x);
      if x == e { ElevationInjective(hc, |areas.native|, nhc, a, h, b, n - 1); }
    }
  }

  /** All classes of an atmosphere cell get the ratio of the cell. */
  lemma {:induction false} RatioOfClass(areas: Areas, hc: Shape, nhc: nat, n: nat, a: nat, h: nat)
    requires areas.Valid() && ElevationIndexing(hc, |areas.native|, nhc) && n <= |areas.native|
    requires a < |areas.native| && h < nhc
    ensures 0 <= ElevationIndex(hc, a, h)
    ensures At(CellRatios(areas, hc, nhc, n), ElevationIndex(hc, a, h), ElevationIndex(hc, a, h))
         == if a < n then areas.Ratio(a) else 0.0
  {
    hide ElevationIndexing, ElevationIndex, ClassRatios, Areas.Ratio;
    IndexingIsValid(hc, |areas.native|, nhc);
    ElevationRoundTrip(hc, |areas.native|, nhc, a, h);
    if n > 0 {
      var x := ElevationIndex(hc, a, h);
      RatioOfClass(areas, hc, nhc, n - 1, a, h);
      ClassRatioAt(areas, hc, nhc, n - 1, nhc, a, h);
      AtConcat(CellRatios(areas, hc, nhc, n - 1), ClassRatios(areas, hc, nhc, n - 1, nhc), x, x);
    }
  }

  // ---------------------------------------------------------------- the ratios cancel

  /** ratioA and ratioE are positive, and every elevation class has the ratio of its atmosphere cell. */
  ghost predicate RatiosAgree(s: Sheet, ratioA: seq<real>, ratioE: seq<real>)
    requires s.Valid() && s.AllInBounds()
  {
    && |ratioA| == s.Extent(A) && |ratioE| == s.Extent(E) && AllPositive(ratioA)
    && forall a: nat, h: nat :: a < s.nA && h < |s.hcdefs| ==> ClassHasRatio(s, ratioA, ratioE, a, h)
  }

  ghost predicate ClassHasRatio(s: Sheet, ratioA: seq<real>, ratioE: seq<real>, a: nat, h: nat)
    requires s.Valid() && s.AllInBounds()
  {
    var e := ElevationIndex(s.hc, a, h);
    0 <= e < |ratioE| && a < |ratioA| && ratioE[e] == ratioA[a]
  }

  ghost function RatioOf(g: Grid, ratioA: seq<real>, ratioE: seq<real>): seq<real>
  {
    if g == A then ratioA else ratioE
  }

  lemma ShareHasRatio(s: Sheet, g: Grid, ratioA: seq<real>, ratioE: seq<real>, k: nat, j: nat)
    requires s.Valid() && s.AllInBounds() && RatiosAgree(s, ratioA, ratioE) && g != I && HasShare(s, g, k, j)
    ensures s.cells[k].iA < |ratioA| && j < |RatioOf(g, ratioA, ratioE)|
    ensures RatioOf(g, ratioA, ratioE)[j] == ratioA[s.cells[k].iA] > 0.0
  {
    hide Prod, ElevationIndex, Distinct, Linterp, Nearest, IsPermutation;
    if g == E {
      var h := ShareClass(s, k, j);
      assert ClassHasRatio(s, ratioA, ratioE, s.cells[k].iA, h);
    }
  }

  lemma RatioCancels(r: real, w: real, v: real)
    requires r > 0.0
    ensures Prod(Prod(Recip(Prod(r, w)), v), r) == Prod(Recip(w), v)
  {
    hide Prod, Recip;
    RecipProd(r, w);
    ProdComm(Recip(r), Recip(w));
    ProdComm(Prod(Prod(Recip(w), Recip(r)), v), r);
    ProdAssoc(r, Prod(Recip(w), Recip(r)), v);
    ProdComm(r, Prod(Recip(w), Recip(r)));
    ProdAssoc(Recip(w), Recip(r), r);
    OverItself(r);
    ProdConst(Recip(w));
  }

  lemma OverItself(r: real)
    requires r > 0.0
    ensures Prod(Recip(r), r) == 1.0
  {
  }

  /** The diagonals of sApvA and of sEpvE. */
  ghost function GridRatios(areas: Areas, s: Sheet, g: Grid): (r: seq<real>)
    requires s.Valid() && s.AllInBounds() && areas.Valid() && |areas.native| == s.nA && g != I
    ensures |r| == s.Extent(g)
  {
    if g == A then seq(s.nA, a requires 0 <= a < s.nA => areas.Ratio(a))
    else
      var w := CellRatios(areas, s.hc, |s.hcdefs|, s.nA);
      seq(s.Extent(E), e requires 0 <= e < s.Extent(E) => At(w, e, e))
  }

  /** What sApvA and sEpvE hold agrees. */
  lemma AreasAgree(areas: Areas, s: Sheet)
    requires s.Valid() && s.AllInBounds() && areas.Valid() && |areas.native| == s.nA
    ensures RatiosAgree(s, GridRatios(areas, s, A), GridRatios(areas, s, E))
  {
    hide ElevationIndexing, ElevationIndex, CellRatios, Sheet.InBounds;
    var ratioA, ratioE := GridRatios(areas, s, A), GridRatios(areas, s, E);
    forall a: nat, h: nat | a < s.nA && h < |s.hcdefs| ensures ClassHasRatio(s, ratioA, ratioE, a, h) {
      IndexingIsValid(s.hc, s.nA, |s.hcdefs|);
      ElevationRoundTrip(s.hc, s.nA, |s.hcdefs|, a, h);
      RatioOfClass(areas, s.hc, |s.hcdefs|, s.nA, a, h);
    }
  }

  /** Without a projection all ratios are 1. */
  lemma NativeRatios(native: seq<real>, projected: seq<real>, s: Sheet, g: Grid)
    requires s.Valid() && s.AllInBounds() && |native| == s.nA && AllPositive(native) && g != I
    ensures InitAreas(native, "", projected).Valid()
    ensures GridRatios(InitAreas(native, "", projected), s, g) == Ones(s.Extent(g))
  {
    hide ElevationIndexing, ElevationIndex, CellRatios, Sheet.InBounds;
    var areas := InitAreas(native, "", projected);
    forall a: nat | a < s.nA ensures areas.Ratio(a) == 1.0 { NativeOverNative(native[a]); }
    if g == E {
      AreasAgree(areas, s);
      var r := GridRatios(areas, s, E);
      forall k | 0 <= k < |r| ensures r[k] == 1.0 {
        var a, h := CellAndClass(s.hc, s.nA, |s.hcdefs|, k);
        assert ClassHasRatio(s, GridRatios(areas, s, A), r, a, h);
      }
    }
  }

  lemma NativeOverNative(x: real)
    requires x > 0.0
    ensures x / x == 1.0
  {
  }

  lemma InverseOfOnes(n: nat)
    ensures Inverse(Ones(n)) == Ones(n)
  {
  }

  /** Without a projection, correctA changes no matrix and no weight. */
  lemma NoProjection(native: seq<real>, projected: seq<real>, s: Sheet, g: Grid, h: Grid, scale: bool)
    requires s.Valid() && s.AllInBounds() && |native| == s.nA && AllPositive(native) && {g, h} == {A, E}
    ensures InitAreas(native, "", projected).Valid()
    ensures var areas, on, off := InitAreas(native, "", projected), RegridParams(scale, true),
                            RegridParams(scale, false);
      var rG, rH := GridRatios(areas, s, g), GridRatios(areas, s, h);
      && ComputeAEvI(s, g, rG, on) == ComputeAEvI(s, g, rG, off)
      && ComputeIvAE(s, g, rG, on) == ComputeIvAE(s, g, rG, off)
      && ComputeEvA(s, g, h, rG, rH, on) == ComputeEvA(s, g, h, rG, rH, off)
  {
    hide Prod, UrProduct, Apply, Sheet.Valid, Sheet.AllInBounds, GridRatios, InitAreas, Inverse, RowSums, ColSums;
    var m, n, l := s.Extent(g), s.Extent(h), s.Extent(I);
    NativeRatios(native, projected, s, g);
    NativeRatios(native, projected, s, h);
    UrProductInBounds(s, g, I, I);
    UrProductInBounds(s, I, g, g);
    UrProductInBounds(s, g, h, h);
    var AvI, IvA, EvA := UrProduct(s, g, I, I), UrProduct(s, I, g, g), UrProduct(s, g, h, h);
    InverseOfOnes(m);
    HadamardOnes(RowSums(AvI, m, l));
    HadamardOnes(Inverse(RowSums(AvI, m, l)));
    HadamardOnes(ColSums(IvA, l, m));
    HadamardOnes(RowSums(EvA, m, n));
    HadamardOnes(ColSums(EvA, m, n));
    ScaleColsOnes(if scale then ScaleRows(Inverse(RowSums(IvA, l, m)), IvA) else IvA, m);
    ScaleColsOnes(if scale then ScaleRows(Inverse(RowSums(EvA, m, n)), EvA) else EvA, n);
  }

  /**
   The scaled EvA and AvE do not depend on correctA: every entry joins cells with the same area ratio, which cancels.
   */
  lemma CorrectionCancels(s: Sheet, e: Grid, a: Grid, ratioA: seq<real>, ratioE: seq<real>)
    requires s.Valid() && s.AllInBounds() && {e, a} == {A, E} && RatiosAgree(s, ratioA, ratioE)
    ensures |RatioOf(e, ratioA, ratioE)| == s.Extent(e) && |RatioOf(a, ratioA, ratioE)| == s.Extent(a)
    ensures ComputeEvA(s, e, a, RatioOf(e, ratioA, ratioE), RatioOf(a, ratioA, ratioE), RegridParams(true, true)).M
         == ComputeEvA(s, e, a, RatioOf(e, ratioA, ratioE), RatioOf(a, ratioA, ratioE), RegridParams(true, false)).M
  {
    hide Prod, Recip, UrProduct, RowSums, ColSums, HasShare, Sheet.Valid, Sheet.AllInBounds;
    UrProductInBounds(s, e, a, a);
    var U, m, n := UrProduct(s, e, a, a), s.Extent(e), s.Extent(a);
    var w := RowSums(U, m, n);
    var rE, rA := RatioOf(e, ratioA, ratioE), RatioOf(a, ratioA, ratioE);
    var M := ScaleCols(ScaleRows(Inverse(Hadamard(rE, w)), U), rA);
    forall k | 0 <= k < |U| ensures M[k] == ScaleRows(Inverse(w), U)[k] {
      assert U[k] in U;
      var c := ProductEntry(s, e, a, a, U[k]);
      ShareHasRatio(s, e, ratioA, ratioE, c, U[k].i);
      ShareHasRatio(s, a, ratioA, ratioE, c, U[k].j);
      RatioCancels(rE[U[k].i], w[U[k].i], U[k].v);
    }
  }
}
