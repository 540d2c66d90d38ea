/**
 What the regridding matrices of slib/icebin/RegridMatrices_Dynamic.cpp do to fields: constants, elevations,
 signs of the weights, and locality.
 */
module RegridProperties {
  import opened Wrappers
  import opened Vectors
  import opened Sums
  import opened Sparse
  import opened VerticalInterp
  import opened Indexing
  import opened ExchangeGrid
  import opened RegridMatrices

  // ---------------------------------------------------------------- constants

  lemma {:induction false} ApplyConst(T: Triplets, m: nat, n: nat, c: real, i: nat)
    requires InBounds(T, m, n) && i < m
    ensures Apply(T, Const(n, c), m)[i] == Prod(c, RowSums(T, m, n)[i])
  {
    hide Prod;
    if |T| == 0 {
      ProdConst(c);
    } else {
      var S, e := T[..|T| - 1], T[|T| - 1];
      ApplyConst(S, m, n, c, i);
      ProdConst(e.v);
      ProdComm(c, e.v);
      ProdPlus(c, RowSums(S, m, n)[i], e.v);
    }
  }

  /** A scaled, uncorrected matrix maps a constant field to the same constant on every row with non-zero weight. */
  lemma ConstantsPreserved(U: Triplets, m: nat, n: nat, c: real, i: nat)
    requires InBounds(U, m, n) && i < m && RowSums(U, m, n)[i] != 0.0
    ensures InBounds(ScaleRows(Inverse(RowSums(U, m, n)), U), m, n)
    ensures Apply(ScaleRows(Inverse(RowSums(U, m, n)), U), Const(n, c), m)[i] == c
  {
    hide Prod, RowSums;
    var w := RowSums(U, m, n);
    ApplyScaleRows(Inverse(w), U, Const(n, c), m, i);
    ApplyConst(U, m, n, c, i);
    UndoWeight(w[i], c);
  }

  lemma UndoWeight(w: real, c: real)
    requires w != 0.0
    ensures Prod(Recip(w), Prod(c, w)) == c
  {
    hide Prod;
    ProdComm(c, w);
    ProdAssoc(Recip(w), w, c);
    ProdInverse(w);
    ProdComm(w, 1.0 / w);
    ProdConst(c);
  }

  lemma RatioTimes(r: real, c: real)
    requires r > 0.0
    ensures Prod(r, Prod(Recip(r), c)) == c
  {
    assert r * (1.0 / r) == 1.0;
    assert r * ((1.0 / r) * c) == (r * (1.0 / r)) * c;
  }

  /** With correctA, AvI and EvI map the constant c to c / ratio: constants survive exactly where ratio is 1. */
  lemma CorrectedConstants(s: Sheet, g: Grid, ratio: seq<real>, c: real, i: nat)
    requires s.Valid() && g != I && (g == E ==> s.AllInBounds()) && |ratio| == s.Extent(g) && i < s.Extent(g)
    requires ratio[i] > 0.0 && c != 0.0
    requires ComputeAEvI(s, g, ratio, RegridParams(true, false)).wM[i] != 0.0
    ensures var W := ComputeAEvI(s, g, ratio, RegridParams(true, true));
            InBounds(W.M, s.Extent(g), s.Extent(I))
            && Prod(ratio[i], Apply(W.M, Const(s.Extent(I), c), s.Extent(g))[i]) == c
            && (Apply(W.M, Const(s.Extent(I), c), s.Extent(g))[i] == c <==> ratio[i] == 1.0)
  {
    hide Prod, RowSums, UrProduct, Sheet.Valid, Sheet.AllInBounds;
    UrProductInBounds(s, g, I, I);
    var m, n := s.Extent(g), s.Extent(I);
    var U := UrProduct(s, g, I, I);
    var w := RowSums(U, m, n);
    var d := Hadamard(Inverse(ratio), Inverse(w));
    ScaledInBounds(U, m, n, d);
    ApplyScaleRows(d, U, Const(n, c), m, i);
    ApplyConst(U, m, n, c, i);
    ProdAssoc(Recip(ratio[i]), Recip(w[i]), Prod(c, w[i]));
    UndoWeight(w[i], c);
    OnlyOne(ratio[i], c);
    RatioTimes(ratio[i], c);
  }

  lemma OnlyOne(r: real, c: real)
    requires r > 0.0 && c != 0.0
    ensures Prod(Recip(r), c) == c <==> r == 1.0
  {
    assert (1.0 / r) * r == 1.0;
    if (1.0 / r) * c == c {
      assert c == c * r by { assert ((1.0 / r) * c) * r == c; }
      assert c * (r - 1.0) == 0.0;
    }
  }

  // ---------------------------------------------------------------- elevations

  /** A field on the elevation grid that holds the elevation of every class. */
  ghost predicate HoldsClassElevations(s: Sheet, h: seq<real>)
    requires s.Valid() && |s.hcdefs| > 0
  {
    && |h| == s.Extent(E)
    && forall iA: nat, ihc: nat :: iA < s.nA && ihc < |s.hcdefs| ==>
         var e := ElevationIndex(s.hc, iA, ihc); 0 <= e < |h| ==> h[e] == s.hcdefs[ihc]
  }

  lemma InterpolateOne(a: Share, h: seq<real>)
    requires a.j < |h|
    ensures Interpolate([a], h) == Prod(a.w, h[a.j])
  {
    hide Prod;
    assert [a][..0] == [];
  }

  lemma InterpolateTwo(a: seq<Share>, b: seq<Share>, h: seq<real>)
    requires |a| <= 1 && |b| <= 1 && (forall k :: 0 <= k < |a| ==> a[k].j < |h|)
    requires forall k :: 0 <= k < |b| ==> b[k].j < |h|
    requires forall k :: 0 <= k < |a + b| ==> (a + b)[k].j < |h|
    ensures Interpolate(a + b, h) == (if |a| == 1 then Prod(a[0].w, h[a[0].j]) else 0.0)
                                   + (if |b| == 1 then Prod(b[0].w, h[b[0].j]) else 0.0)
  {
    hide Prod, Interpolate;
    InterpolateAtMostOne(a, h);
    if |b| == 1 {
      var c := a + b;
      assert c[..|c| - 1] == a && c[|c| - 1] == b[0];
      InterpolateLast(c, h);
    } else {
      assert a + b == a;
    }
  }

  lemma InterpolateAtMostOne(a: seq<Share>, h: seq<real>)
    requires |a| <= 1 && (forall k :: 0 <= k < |a| ==> a[k].j < |h|)
    ensures Interpolate(a, h) == if |a| == 1 then Prod(a[0].w, h[a[0].j]) else 0.0
  {
    hide Prod;
    if |a| == 1 {
      assert a == [a[0]];
      InterpolateOne(a[0], h);
    }
  }

  lemma InterpolateLast(c: seq<Share>, h: seq<real>)
    requires |c| > 0 && (forall k :: 0 <= k < |c| ==> c[k].j < |h|)
    ensures Interpolate(c, h) == Interpolate(c[..|c| - 1], h) + Prod(c[|c| - 1].w, h[c[|c| - 1].j])
  {
    hide Prod;
  }

  /** The class elevation that a field of class elevations holds at the index of a class. */
  lemma ClassElevationAt(s: Sheet, h: seq<real>, iA: nat, ihc: nat)
    requires s.Valid() && iA < s.nA && ihc < |s.hcdefs| && HoldsClassElevations(s, h)
    ensures 0 <= ElevationIndex(s.hc, iA, ihc) < |h| && h[ElevationIndex(s.hc, iA, ihc)] == s.hcdefs[ihc]
  {
    hide ElevationIndex, Distinct, IsPermutation, Shape.Value;
    ElevationRoundTrip(s.hc, s.nA, |s.hcdefs|, iA, ihc);
  }

  /** max(elevmaskI, 0) of an ice cell. */
  function IceElevation(s: Sheet, i: nat): real
  {
    if i < |s.elevmaskI| && s.elevmaskI[i].Some? && s.elevmaskI[i].value > 0.0 then s.elevmaskI[i].value else 0.0
  }

  /** What a field on the atmosphere grid or on the ice grid is worth at an unmasked exchange cell. */
  lemma CellMeanA(s: Sheet, y: seq<real>, k: nat)
    requires s.Valid() && |y| == s.Extent(A) && k < |s.cells| && s.Unmasked(s.cells[k])
    ensures CellMean(s, A, y, k) == y[s.cells[k].iA]
  {
    hide Prod;
    InterpolateOne(Share(s.cells[k].iA, 1.0), y);
    ProdConst(y[s.cells[k].iA]);
  }

  /** Class h is nearest to elevation z, and the lower one of two that are equally near. */
  ghost predicate NearestClass(hcdefs: seq<real>, z: real, h: nat)
  {
    && h < |hcdefs|
    && (forall l :: 0 <= l < |hcdefs| ==> Distance(z, hcdefs[h]) <= Distance(z, hcdefs[l]))
    && forall l :: 0 <= l < h ==> Distance(z, hcdefs[h]) < Distance(z, hcdefs[l])
  }

  /**
   ELEV_CLASS_INTERP: an unmasked exchange cell takes the value of the class of its atmosphere cell that lies nearest
   to max(elevmaskI, 0).
   */
  lemma NearestMean(s: Sheet, y: seq<real>, k: nat) returns (h: nat)
    requires s.Valid() && s.AllInBounds() && s.style == ELEV_CLASS_INTERP && |y| == s.Extent(E) && k < |s.cells|
    requires s.Unmasked(s.cells[k])
    ensures NearestClass(s.hcdefs, IceElevation(s, s.cells[k].iI), h)
    ensures 0 <= ElevationIndex(s.hc, s.cells[k].iA, h) < |y|
    ensures CellMean(s, E, y, k) == y[ElevationIndex(s.hc, s.cells[k].iA, h)]
  {
    hide Prod, ElevationIndex, Distinct, Nearest, IsPermutation;
    var c := s.cells[k];
    h := Nearest(s.hcdefs, s.Elevation(c));
    ElevationRoundTrip(s.hc, s.nA, |s.hcdefs|, c.iA, h);
    InterpolateOne(ToShare(ElevationIndex(s.hc, c.iA, h), 1.0), y);
    ProdConst(y[ElevationIndex(s.hc, c.iA, h)]);
  }

  /**
   Z_INTERP: an unmasked exchange cell interpolates linearly between the two neighbouring classes that enclose
   max(elevmaskI, 0), or extrapolates from the lowest two.
   */
  lemma LinearMean(s: Sheet, y: seq<real>, k: nat) returns (i1: nat, w0: real, w1: real)
    requires s.Valid() && s.AllInBounds() && s.style == Z_INTERP && |y| == s.Extent(E) && k < |s.cells|
    requires s.Unmasked(s.cells[k])
    ensures 1 <= i1 < |s.hcdefs| && w0 + w1 == 1.0
    ensures var z := IceElevation(s, s.cells[k].iI);
      && Prod(w0, s.hcdefs[i1 - 1]) + Prod(w1, s.hcdefs[i1]) == z
      && z <= s.hcdefs[i1] && (s.hcdefs[i1 - 1] < z || (i1 == 1 && z <= s.hcdefs[0]))
    ensures var c := s.cells[k];
      && 0 <= ElevationIndex(s.hc, c.iA, i1 - 1) < |y| && 0 <= ElevationIndex(s.hc, c.iA, i1) < |y|
      && CellMean(s, E, y, k) == Prod(w0, y[ElevationIndex(s.hc, c.iA, i1 - 1)])
                               + Prod(w1, y[ElevationIndex(s.hc, c.iA, i1)])
  {
    hide Prod, ElevationIndex, Distinct, Stencil, ElevationIndexing, Interpolate, Linterp;
    var c := s.cells[k];
    StencilInBounds(s, E, c);
    assert s.InBounds(c);
    var b, a0, a1 := BracketShares(s, c);
    i1, w0, w1 := b.i1, b.w0, b.w1;
    ElevationRoundTrip(s.hc, s.nA, |s.hcdefs|, c.iA, i1 - 1);
    ElevationRoundTrip(s.hc, s.nA, |s.hcdefs|, c.iA, i1);
    assert Stencil(s, E, c) == a0 + a1;
    InterpolateTwo(a0, a1, y);
    IndexingIsValid(s.hc, s.nA, |s.hcdefs|);
    ProdConst(y[ElevationIndex(s.hc, c.iA, i1 - 1)]);
    ProdConst(y[ElevationIndex(s.hc, c.iA, i1)]);
  }

  /** Interpolating the class elevations at an unmasked cell gives back the elevation of the cell. */
  lemma CellElevation(s: Sheet, h: seq<real>, k: nat)
    requires s.Valid() && s.AllInBounds() && s.style == Z_INTERP && HoldsClassElevations(s, h) && k < |s.cells|
    requires s.Unmasked(s.cells[k])
    ensures CellMean(s, E, h, k) == s.Elevation(s.cells[k])
  {
    hide Prod, ElevationIndex, Distinct, Stencil, ElevationIndexing, HoldsClassElevations, Interpolate;
    var c := s.cells[k];
    HoldsSize(s, h);
    StencilInBounds(s, E, c);
    assert s.InBounds(c);
    var b, a0, a1 := BracketShares(s, c);
    ClassElevationAt(s, h, c.iA, b.i1 - 1);
    ClassElevationAt(s, h, c.iA, b.i1);
    assert Stencil(s, E, c) == a0 + a1;
    InterpolateTwo(a0, a1, h);
    ProdConst(s.hcdefs[b.i1 - 1]);
    ProdConst(s.hcdefs[b.i1]);
  }

  lemma CellMeanI(s: Sheet, y: seq<real>, k: nat)
    requires s.Valid() && |y| == s.Extent(I) && k < |s.cells| && s.Unmasked(s.cells[k])
    ensures s.cells[k].iI < |y| && CellMean(s, I, y, k) == y[s.cells[k].iI]
  {
    hide Prod;
    InterpolateOne(Share(s.cells[k].iI, 1.0), y);
    ProdConst(y[s.cells[k].iI]);
  }

  /** The field h on the elevation grid is worth z at every exchange cell of ice cell i. */
  ghost predicate WorthOnIce(s: Sheet, h: seq<real>, i: nat, z: real)
    requires s.Valid() && s.AllInBounds() && |h| == s.Extent(E)
  {
    forall k :: 0 <= k < |s.cells| && s.cells[k].iI == i && s.Unmasked(s.cells[k]) ==> CellMean(s, E, h, k) == z
  }

  /** One exchange cell's share of row i of IvE applied to such a field. */
  lemma IceTerm(s: Sheet, h: seq<real>, i: nat, z: real, k: int)
    requires s.Valid() && s.AllInBounds() && |h| == s.Extent(E) && i < s.Extent(I) && WorthOnIce(s, h, i, z)
    ensures FormTerm(s, I, E, Unit(s.Extent(I), i), h)(k)
         == Prod(z, FormTerm(s, I, E, Unit(s.Extent(I), i), Ones(s.Extent(E)))(k))
  {
    hide Prod, Sheet.Valid, Sheet.AllInBounds;
    var y := Unit(s.Extent(I), i);
    ProdConst(0.0);
    ProdConst(z);
    ProdConst(Prod(CellMean(s, I, y, k), CellMean(s, E, h, k)));
    ProdConst(Prod(CellMean(s, I, y, k), CellMean(s, E, Ones(s.Extent(E)), k)));
    if 0 <= k < |s.cells| && s.Unmasked(s.cells[k]) {
      var area := s.cells[k].area;
      CellMeanI(s, y, k);
      ShareSum(s, E, k);
      ProdConst(CellMean(s, E, h, k));
      ProdConst(1.0);
      ProdConst(area);
      ProdComm(area, z);
    }
  }

  /** Scaled and uncorrected, IvE gives an ice cell with overlaps what the field is worth there. */
  lemma IvEGivesWorth(s: Sheet, ratio: seq<real>, h: seq<real>, i: nat, z: real)
    requires s.Valid() && s.AllInBounds() && |h| == s.Extent(E) && WorthOnIce(s, h, i, z)
    requires |ratio| == s.Extent(E) && i < s.Extent(I)
    requires exists k :: 0 <= k < |s.cells| && s.cells[k].iI == i && s.Unmasked(s.cells[k])
    ensures var W := ComputeIvAE(s, E, ratio, RegridParams(true, false));
            InBounds(W.M, s.Extent(I), s.Extent(E)) && Apply(W.M, h, s.Extent(I))[i] == z
  {
    hide Prod, UrProduct, FormTerm, Sheet.Valid, Sheet.AllInBounds, Inverse, WorthOnIce;
    var m, n := s.Extent(I), s.Extent(E);
    UrProductInBounds(s, I, E, E);
    var U := UrProduct(s, I, E, E);
    var w := RowSums(U, m, n);
    ScaledInBounds(U, m, n, Inverse(w));
    ApplyScaleRows(Inverse(w), U, h, m, i);
    ApplyElement(U, h, m, i);
    ApplyElement(U, Ones(n), m, i);
    UrProductForm(s, I, E, E, Unit(m, i), h);
    UrProductForm(s, I, E, E, Unit(m, i), Ones(n));
    forall k | 0 <= k < |s.cells|
      ensures FormTerm(s, I, E, Unit(m, i), h)(k) == Prod(z, FormTerm(s, I, E, Unit(m, i), Ones(n))(k))
    {
      IceTerm(s, h, i, z, k);
    }
    RangeSumScale(0, |s.cells|, z, FormTerm(s, I, E, Unit(m, i), Ones(n)), FormTerm(s, I, E, Unit(m, i), h));
    IceRowPositive(s, i);
    UndoWeight(w[i], z);
  }

  /**
   IvE reproduces elevation: scaled, uncorrected and unsmoothed, Z_INTERP style, applied to the class elevations,
   it gives max(elevmaskI, 0) on every ice cell that has overlaps - extrapolation below the lowest class included.
   */
  lemma IvEReproducesElevation(s: Sheet, ratio: seq<real>, h: seq<real>, i: nat)
    requires s.Valid() && s.AllInBounds() && s.style == Z_INTERP && HoldsClassElevations(s, h)
    requires |ratio| == s.Extent(E) && i < s.Extent(I)
    requires exists k :: 0 <= k < |s.cells| && s.cells[k].iI == i && s.Unmasked(s.cells[k])
    ensures var W := ComputeIvAE(s, E, ratio, RegridParams(true, false));
            InBounds(W.M, s.Extent(I), s.Extent(E))
            && Apply(W.M, h, s.Extent(I))[i] == IceElevation(s, i)
  {
    hide Prod, ComputeIvAE, Sheet.Valid, Sheet.AllInBounds, HoldsClassElevations, Apply, CellMean;
    HoldsSize(s, h);
    forall k | 0 <= k < |s.cells| && s.cells[k].iI == i && s.Unmasked(s.cells[k])
      ensures CellMean(s, E, h, k) == IceElevation(s, i)
    {
      CellElevation(s, h, k);
    }
    IvEGivesWorth(s, ratio, h, i, IceElevation(s, i));
  }

  /** In ELEV_CLASS_INTERP style it gives the elevation of the nearest class: no class elevation comes nearer. */
  lemma IvEGivesNearestClass(s: Sheet, ratio: seq<real>, h: seq<real>, i: nat) returns (c: nat)
    requires s.Valid() && s.AllInBounds() && s.style == ELEV_CLASS_INTERP && HoldsClassElevations(s, h)
    requires |ratio| == s.Extent(E) && i < s.Extent(I)
    requires exists k :: 0 <= k < |s.cells| && s.cells[k].iI == i && s.Unmasked(s.cells[k])
    ensures NearestClass(s.hcdefs, IceElevation(s, i), c)
    ensures var W := ComputeIvAE(s, E, ratio, RegridParams(true, false));
            InBounds(W.M, s.Extent(I), s.Extent(E)) && Apply(W.M, h, s.Extent(I))[i] == s.hcdefs[c]
  {
    hide Prod, ComputeIvAE, Sheet.Valid, Sheet.AllInBounds, HoldsClassElevations, Apply, CellMean, ElevationIndex;
    HoldsSize(s, h);
    var l :| 0 <= l < |s.cells| && s.cells[l].iI == i && s.Unmasked(s.cells[l]);
    c := NearestMean(s, h, l);
    forall k | 0 <= k < |s.cells| && s.cells[k].iI == i && s.Unmasked(s.cells[k])
      ensures CellMean(s, E, h, k) == s.hcdefs[c]
    {
      var d := NearestMean(s, h, k);
      OneNearest(s.hcdefs, IceElevation(s, i), c, d);
      CellInRange(s, k);
      ClassElevationAt(s, h, s.cells[k].iA, d);
    }
    IvEGivesWorth(s, ratio, h, i, s.hcdefs[c]);
  }

  lemma OneNearest(hcdefs: seq<real>, z: real, c: nat, d: nat)
    requires NearestClass(hcdefs, z, c) && NearestClass(hcdefs, z, d)
    ensures c == d
  {
    assert Distance(z, hcdefs[c]) <= Distance(z, hcdefs[d]) && Distance(z, hcdefs[d]) <= Distance(z, hcdefs[c]);
  }

  lemma HoldsSize(s: Sheet, h: seq<real>)
    requires s.Valid() && s.AllInBounds() && HoldsClassElevations(s, h)
    ensures |h| == s.Extent(E)
  {
  }

  // ---------------------------------------------------------------- signs of the weights

  /** No unmasked cell lies below the lowest elevation class. */
  ghost predicate NoExtrapolation(s: Sheet)
  {
    s.style == Z_INTERP ==>
      |s.hcdefs| > 0 && forall k :: 0 <= k < |s.cells| && s.Unmasked(s.cells[k]) ==>
        s.hcdefs[0] <= s.Elevation(s.cells[k])
  }

  lemma {:induction false} InterpolateUnit(st: seq<Share>, n: nat, i: nat)
    requires (forall k :: 0 <= k < |st| ==> st[k].j < n && st[k].w > 0.0) && i < n
    ensures Interpolate(st, Unit(n, i)) >= 0.0
    ensures (exists k :: 0 <= k < |st| && st[k].j == i) ==> Interpolate(st, Unit(n, i)) > 0.0
  {
    hide Prod;
    if |st| > 0 {
      var l := |st| - 1;
      InterpolateUnit(st[..l], n, i);
      ProdConst(st[l].w);
      if exists k :: 0 <= k < |st| && st[k].j == i {
        var k :| 0 <= k < |st| && st[k].j == i;
        if k < l { assert st[..l][k].j == i; }
      }
    }
  }

  lemma PositiveShares(s: Sheet, g: Grid, k: nat)
    requires s.Valid() && (g == E ==> s.AllInBounds() && NoExtrapolation(s)) && k < |s.cells|
    requires s.Unmasked(s.cells[k])
    ensures g == E ==> s.InBounds(s.cells[k])
    ensures forall i :: 0 <= i < |Stencil(s, g, s.cells[k])| ==> Stencil(s, g, s.cells[k])[i].w > 0.0
  {
    hide Prod, ElevationIndex, Distinct, Linterp, Nearest;
  }

  ghost predicate HasShare(s: Sheet, g: Grid, k: int, j: nat)
    requires s.Valid() && (g == E ==> s.AllInBounds())
  {
    0 <= k < |s.cells| && s.Unmasked(s.cells[k]) && exists t :: t in Stencil(s, g, s.cells[k]) && t.j == j
  }

  /** The share of grid cell j in exchange cell k is non-negative, and positive if the exchange cell has one. */
  lemma MeanSign(s: Sheet, g: Grid, j: nat, k: int)
    requires s.Valid() && (g == E ==> s.AllInBounds() && NoExtrapolation(s)) && j < s.Extent(g)
    ensures CellMean(s, g, Unit(s.Extent(g), j), k) >= 0.0
    ensures HasShare(s, g, k, j) ==> CellMean(s, g, Unit(s.Extent(g), j), k) > 0.0
  {
    hide Prod, Stencil, Sheet.Valid, Sheet.AllInBounds, NoExtrapolation;
    if 0 <= k < |s.cells| && s.Unmasked(s.cells[k]) {
      StencilOk(s, g, k);
      StencilInBounds(s, g, s.cells[k]);
      PositiveShares(s, g, k);
      var st := Stencil(s, g, s.cells[k]);
      InterpolateUnit(st, s.Extent(g), j);
      if HasShare(s, g, k, j) {
        var t :| t in st && t.j == j;
        var l :| 0 <= l < |st| && st[l] == t;
      }
    }
  }

  /** Row i of a product has positive weight if some exchange cell has a share in it. */
  lemma RowPositive(s: Sheet, g1: Grid, gd: Grid, g2: Grid, i: nat, k: int)
    requires s.Valid() && (E in {g1, gd, g2} ==> s.AllInBounds()) && (g1 == E ==> NoExtrapolation(s))
    requires i < s.Extent(g1) && HasShare(s, g1, k, i)
    ensures InBounds(UrProduct(s, g1, gd, g2), s.Extent(g1), s.Extent(g2))
    ensures RowSums(UrProduct(s, g1, gd, g2), s.Extent(g1), s.Extent(g2))[i] > 0.0
  {
    hide Prod, Stencil, Sheet.Valid, Sheet.AllInBounds, NoExtrapolation, UrProduct, CellMean;
    var m, n := s.Extent(g1), s.Extent(g2);
    UrProductInBounds(s, g1, gd, g2);
    ApplyElement(UrProduct(s, g1, gd, g2), Ones(n), m, i);
    UrProductForm(s, g1, gd, g2, Unit(m, i), Ones(n));
    var f := FormTerm(s, g1, g2, Unit(m, i), Ones(n));
    forall l | 0 <= l < |s.cells| ensures f(l) >= 0.0 && (l == k ==> f(l) > 0.0) {
      MeanSign(s, g1, i, l);
      ShareSum(s, g2, l);
      CellInRange(s, l);
      ProdConst(CellMean(s, g1, Unit(m, i), l));
      ProdConst(Prod(CellMean(s, g1, Unit(m, i), l), CellMean(s, g2, Ones(n), l)));
      if s.Unmasked(s.cells[l]) {
        ProdNonNegative(s.cells[l].area, CellMean(s, g1, Unit(m, i), l));
      }
    }
    RangeSumNonNegative(0, |s.cells|, f);
    assert f(k) > 0.0;
  }

  lemma PositiveEntries(s: Sheet, g: Grid, k: nat)
    requires s.Valid() && (g == E ==> s.AllInBounds() && NoExtrapolation(s)) && k < |s.cells|
    requires s.Unmasked(s.cells[k])
    ensures g == E ==> s.InBounds(s.cells[k])
    ensures Positive(StencilEntries(s.cells[k], Stencil(s, g, s.cells[k])))
  {
    hide Prod, Stencil, NoExtrapolation;
    PositiveShares(s, g, k);
    var c, st := s.cells[k], Stencil(s, g, s.cells[k]);
    forall l | 0 <= l < |st| ensures Prod(c.area, st[l].w) > 0.0 {
      ProdNonNegative(c.area, st[l].w);
    }
  }

  /** Without extrapolation, all entries of the Ur matrices are positive. */
  lemma {:induction false} PositiveUr(s: Sheet, g: Grid, n: nat)
    requires s.Valid() && (g == E ==> s.AllInBounds() && NoExtrapolation(s)) && n <= |s.cells|
    ensures Positive(Ur(s, g, n))
  {
    hide Prod, Stencil, NoExtrapolation, Sheet.Valid, Sheet.AllInBounds, Sheet.Unmasked;
    if n > 0 {
      PositiveUr(s, g, n - 1);
      if s.Unmasked(s.cells[n - 1]) {
        PositiveEntries(s, g, n - 1);
      }
    }
  }

  /** Without extrapolation, all entries of the products are positive. */
  lemma PositiveProduct(s: Sheet, g1: Grid, gd: Grid, g2: Grid)
    requires s.Valid() && (E in {g1, gd, g2} ==> s.AllInBounds() && NoExtrapolation(s))
    ensures Positive(UrProduct(s, g1, gd, g2))
  {
    hide Prod, Stencil, NoExtrapolation, Sheet.Valid, Sheet.AllInBounds, Sheet.Unmasked, Ur, UrScale, Mul, HasShare;
    var U, n := UrProduct(s, g1, gd, g2), |s.cells|;
    UrInBounds(s, g1, n);
    PositiveUr(s, g1, n);
    PositiveUr(s, g2, n);
    var left, d := ScaleCols(Transpose(Ur(s, g1, n)), UrScale(s, gd)), UrScale(s, gd);
    forall k | 0 <= k < |U| ensures U[k].v > 0.0 {
      assert U[k] in U;
      var l, t := MulWitness(left, Ur(s, g2, n), U[k]);
      var p :| 0 <= p < |left| && left[p] == l;
      var u := Ur(s, g1, n)[p];
      assert u in Ur(s, g1, n);
      var c := UrEntry(s, g1, n, u);
      ScalePositive(s, gd, c, g1, u.j);
      ProdNonNegative(u.v, d[u.i]);
      ProdNonNegative(l.v, t.v);
    }
  }

  lemma ScalePositive(s: Sheet, gd: Grid, c: nat, g: Grid, j: nat)
    requires s.Valid() && (gd == E ==> s.AllInBounds()) && (g == E ==> s.AllInBounds())
    requires c < |s.cells| && HasShare(s, g, c, j)
    ensures s.cells[c].iX < s.nX && UrScale(s, gd)[s.cells[c].iX] > 0.0
  {
    hide Prod, Stencil, UrScale, Sheet.AllInBounds;
    UrScaleAt(s, gd, c);
  }

  lemma IceRowPositive(s: Sheet, i: nat)
    requires s.Valid() && s.AllInBounds() && i < s.Extent(I)
    requires exists k :: 0 <= k < |s.cells| && s.cells[k].iI == i && s.Unmasked(s.cells[k])
    ensures InBounds(UrProduct(s, I, E, E), s.Extent(I), s.Extent(E))
    ensures RowSums(UrProduct(s, I, E, E), s.Extent(I), s.Extent(E))[i] > 0.0
  {
    hide Prod, Sheet.AllInBounds, UrProduct;
    var k :| 0 <= k < |s.cells| && s.cells[k].iI == i && s.Unmasked(s.cells[k]);
    assert Share(i, 1.0) in Stencil(s, I, s.cells[k]);
    RowPositive(s, I, E, E, i, k);
  }

  /** The exchange cell that a stored Ur entry comes from. */
  lemma {:induction false} UrEntry(s: Sheet, g: Grid, n: nat, e: Entry) returns (k: nat)
    requires s.Valid() && (g == E ==> s.AllInBounds()) && n <= |s.cells| && e in Ur(s, g, n)
    ensures k < n && e.i == s.cells[k].iX && HasShare(s, g, k, e.j)
  {
    hide Prod, Stencil;
    if e in Ur(s, g, n - 1) {
      k := UrEntry(s, g, n - 1, e);
    } else {
      k := n - 1;
      var c := s.cells[k];
      var st := Stencil(s, g, c);
      var l :| 0 <= l < |st| && StencilEntries(c, st)[l] == e;
      assert st[l] in st && st[l].j == e.j;
    }
  }

  /** A stored entry of a product joins two grid cells that share an exchange cell. */
  lemma ProductEntry(s: Sheet, g1: Grid, gd: Grid, g2: Grid, e: Entry) returns (k: nat)
    requires s.Valid() && (E in {g1, gd, g2} ==> s.AllInBounds()) && e in UrProduct(s, g1, gd, g2)
    ensures k < |s.cells| && HasShare(s, g1, k, e.i) && HasShare(s, g2, k, e.j)
  {
    hide Prod, Stencil, Ur, HasShare, UrScale;
    var n := |s.cells|;
    UrInBounds(s, g1, n);
    var left := ScaleCols(Transpose(Ur(s, g1, n)), UrScale(s, gd));
    var l, t := MulWitness(left, Ur(s, g2, n), e);
    var p :| 0 <= p < |left| && left[p] == l;
    var u := Ur(s, g1, n)[p];
    k := UrEntry(s, g1, n, u);
    var k2 := UrEntry(s, g2, n, t);
    assert s.cells[k].iX == s.cells[k2].iX;
  }

  /** Without extrapolation, every stored row has positive weight, so that scaling never divides by zero. */
  lemma AllRowsPositive(s: Sheet, g1: Grid, gd: Grid, g2: Grid)
    requires s.Valid() && (E in {g1, gd, g2} ==> s.AllInBounds()) && (g1 == E ==> NoExtrapolation(s))
    ensures InBounds(UrProduct(s, g1, gd, g2), s.Extent(g1), s.Extent(g2))
    ensures RowsScalable(UrProduct(s, g1, gd, g2), RowSums(UrProduct(s, g1, gd, g2), s.Extent(g1), s.Extent(g2)))
    ensures forall e :: e in UrProduct(s, g1, gd, g2) ==>
              RowSums(UrProduct(s, g1, gd, g2), s.Extent(g1), s.Extent(g2))[e.i] > 0.0
  {
    hide Prod, Sheet.Valid, Sheet.AllInBounds, NoExtrapolation, UrProduct, HasShare, RowSums;
    UrProductInBounds(s, g1, gd, g2);
    var U := UrProduct(s, g1, gd, g2);
    forall e | e in U ensures RowSums(U, s.Extent(g1), s.Extent(g2))[e.i] > 0.0 {
      var k := ProductEntry(s, g1, gd, g2, e);
      RowPositive(s, g1, gd, g2, e.i, k);
    }
  }

  // ---------------------------------------------------------------- locality

  /** Cell j of grid g (A or E) belongs to atmosphere cell iA, as index_to_tuple sees it. */
  ghost predicate BelongsTo(s: Sheet, g: Grid, j: nat, iA: nat)
    requires s.Valid()
  {
    match g
    case A => j == iA
    case E => |s.hcdefs| > 0 && forall u :: s.hc.HoldsDigits(u, j) ==> u[0] == iA
    case I => true
  }

  /** Every share of an exchange cell belongs to the cell's own atmosphere cell. */
  lemma ShareIsLocal(s: Sheet, g: Grid, k: nat, j: nat)
    requires s.Valid() && (g == E ==> s.AllInBounds()) && HasShare(s, g, k, j)
    ensures BelongsTo(s, g, j, s.cells[k].iA)
  {
    hide Prod, ElevationIndex, Distinct, Linterp, Nearest, IsPermutation;
    if g == E {
      var c := s.cells[k];
      if s.style == ELEV_CLASS_INTERP {
        ElevationRoundTrip(s.hc, s.nA, |s.hcdefs|, c.iA, Nearest(s.hcdefs, s.Elevation(c)));
      } else {
        var b := Linterp(s.hcdefs, s.Elevation(c)).value;
        ElevationRoundTrip(s.hc, s.nA, |s.hcdefs|, c.iA, b.i1 - 1);
        ElevationRoundTrip(s.hc, s.nA, |s.hcdefs|, c.iA, b.i1);
      }
    }
  }

  lemma OwnAtmosphereCell(s: Sheet, k: nat, j: nat)
    requires s.Valid() && HasShare(s, A, k, j)
    ensures j == s.cells[k].iA
  {
  }

  /** The elevation class of its own atmosphere cell that an exchange cell has a share in. */
  lemma ShareClass(s: Sheet, k: nat, j: nat) returns (h: nat)
    requires s.Valid() && s.AllInBounds() && HasShare(s, E, k, j)
    ensures h < |s.hcdefs| && j == ElevationIndex(s.hc, s.cells[k].iA, h)
  {
    hide Prod, ElevationIndex, Distinct, Linterp, Nearest, IsPermutation;
    var c := s.cells[k];
    if s.style == ELEV_CLASS_INTERP {
      h := Nearest(s.hcdefs, s.Elevation(c));
      ElevationRoundTrip(s.hc, s.nA, |s.hcdefs|, c.iA, h);
    } else {
      var b := Linterp(s.hcdefs, s.Elevation(c)).value;
      ElevationRoundTrip(s.hc, s.nA, |s.hcdefs|, c.iA, b.i1 - 1);
      ElevationRoundTrip(s.hc, s.nA, |s.hcdefs|, c.iA, b.i1);
      h := if j == ElevationIndex(s.hc, c.iA, b.i1 - 1) then b.i1 - 1 else b.i1;
    }
  }

  /** EvA and AvE are local: no stored entry joins an elevation cell with a different atmosphere cell. */
  lemma EvAIsLocal(s: Sheet, e: Grid, a: Grid, t: Entry) returns (iA: nat)
    requires s.Valid() && {e, a} == {A, E} && s.AllInBounds() && t in UrProduct(s, e, a, a)
    ensures BelongsTo(s, e, t.i, iA) && BelongsTo(s, a, t.j, iA)
  {
    hide Prod, Sheet.Valid, Sheet.AllInBounds, UrProduct, HasShare, BelongsTo;
    var k := ProductEntry(s, e, a, a, t);
    ShareIsLocal(s, e, k, t.i);
    ShareIsLocal(s, a, k, t.j);
    iA := s.cells[k].iA;
  }

  // ---------------------------------------------------------------- all six matrices

  ghost predicate AllPositive(v: seq<real>)
  {
    forall k :: 0 <= k < |v| ==> v[k] > 0.0
  }

  /** Scaling the weights by positive ratios keeps them usable. */
  lemma CorrectedScalable(U: Triplets, ratio: seq<real>, w: seq<real>)
    requires |ratio| == |w| && AllPositive(ratio) && RowsScalable(U, w)
    ensures RowsScalable(U, Hadamard(ratio, w))
  {
    hide Prod;
    forall k | 0 <= k < |U| ensures U[k].i < |w| && Hadamard(ratio, w)[U[k].i] != 0.0 {
      ProdZero(ratio[U[k].i], w[U[k].i]);
    }
  }

  /**
   AvI and IvA (g = A), EvI and IvE (g = E) conserve, for both settings of scale and of correctA; only EvI, whose rows
   are elevation classes, needs the ice not to lie below the lowest class.
   */
  lemma OneConserves(s: Sheet, g: Grid, ratio: seq<real>, p: RegridParams)
    requires s.Valid() && (g == E ==> s.AllInBounds()) && g != I
    requires |ratio| == s.Extent(g)
    ensures AllPositive(ratio) && (g == E ==> NoExtrapolation(s)) ==> Conserves(ComputeAEvI(s, g, ratio, p), p.scale)
    ensures Conserves(ComputeIvAE(s, g, ratio, p), p.scale)
  {
    hide Prod, Sheet.Valid, Sheet.AllInBounds, NoExtrapolation, UrProduct, RowSums, ColSums, RowsScalable, AllPositive,
      Inverse, Conserves;
    if AllPositive(ratio) && (g == E ==> NoExtrapolation(s)) {
      AllRowsPositive(s, g, I, I);
      CorrectedScalable(UrProduct(s, g, I, I), ratio, RowSums(UrProduct(s, g, I, I), s.Extent(g), s.Extent(I)));
      AEvIConserves(s, g, ratio, p);
    }
    AllRowsPositive(s, I, g, g);
    IvAEConserves(s, g, ratio, p);
  }

  /**
   EvA (e = E) and AvE (e = A) conserve, for both settings of scale and of correctA; only EvA needs the ice not to lie
   below the lowest class.
   */
  lemma CrossConserves(s: Sheet, e: Grid, a: Grid, ratioE: seq<real>, ratioA: seq<real>, p: RegridParams)
    requires s.Valid() && s.AllInBounds() && (e == E ==> NoExtrapolation(s)) && {e, a} == {A, E}
    requires |ratioE| == s.Extent(e) && |ratioA| == s.Extent(a) && AllPositive(ratioE)
    ensures Conserves(ComputeEvA(s, e, a, ratioE, ratioA, p), p.scale)
  {
    hide Prod, Sheet.Valid, Sheet.AllInBounds, NoExtrapolation, UrProduct, RowSums, ColSums, RowsScalable, AllPositive,
      Inverse, Conserves;
    AllRowsPositive(s, e, a, a);
    CorrectedScalable(UrProduct(s, e, a, a), ratioE, RowSums(UrProduct(s, e, a, a), s.Extent(e), s.Extent(a)));
    EvAConserves(s, e, a, ratioE, ratioA, p);
  }
}
