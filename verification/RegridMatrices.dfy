/**
 The regridding matrices between the atmosphere, elevation and ice grids
 (slib/icebin/RegridMatrices_Dynamic.cpp).
 */
module RegridMatrices {
  import opened Vectors
  import opened Sums
  import opened Sparse
  import opened ExchangeGrid
  import opened VerticalInterp

  // ---------------------------------------------------------------- Ur matrices applied to a vector

  /** An unmasked exchange cell's value of a field y on grid g: its share-weighted mean. */
  ghost function CellMean(s: Sheet, g: Grid, y: seq<real>, k: int): real
    requires s.Valid() && (g == E ==> s.AllInBounds()) && |y| == s.Extent(g)
  {
    if 0 <= k < |s.cells| && s.Unmasked(s.cells[k]) then
      StencilInBounds(s, g, s.cells[k]);
      Interpolate(Stencil(s, g, s.cells[k]), y)
    else 0.0
  }

  /** Area of an unmasked exchange cell. */
  ghost function CellArea(s: Sheet, k: int): real
  {
    if 0 <= k < |s.cells| && s.Unmasked(s.cells[k]) then s.cells[k].area else 0.0
  }

  /** Row of the exchange cell k in Ur y. */
  ghost function CellTotal(s: Sheet, g: Grid, y: seq<real>): int -> real
    requires s.Valid() && (g == E ==> s.AllInBounds()) && |y| == s.Extent(g)
  {
    k => Prod(CellArea(s, k), CellMean(s, g, y, k))
  }

  /** The vector on the exchange grid that has f(k) at exchange cell k. */
  ghost function Scatter(s: Sheet, f: int -> real, n: nat): (r: seq<real>)
    requires s.Valid() && n <= |s.cells|
    ensures |r| == s.nX
  {
    if n == 0 then Const(s.nX, 0.0) else Scatter(s, f, n - 1)[s.cells[n - 1].iX := f(n - 1)]
  }

  lemma {:induction false} ScatterAt(s: Sheet, f: int -> real, n: nat, k: nat)
    requires s.Valid() && n <= |s.cells| && k < |s.cells|
    ensures Scatter(s, f, n)[s.cells[k].iX] == if k < n then f(k) else 0.0
  {
    if n > 0 {
      ScatterAt(s, f, n - 1, k);
      if k < n - 1 {
        assert s.cells[k].iX != s.cells[n - 1].iX;
      } else if k > n - 1 {
        assert s.cells[n - 1].iX != s.cells[k].iX;
      }
    }
  }

  lemma {:induction false} DotScatter(s: Sheet, f: int -> real, n: nat, v: seq<real>, p: int -> real)
    requires s.Valid() && n <= |s.cells| && |v| == s.nX
    requires forall k :: 0 <= k < n ==> p(k) == Prod(v[s.cells[k].iX], f(k))
    ensures Dot(v, Scatter(s, f, n)) == RangeSum(0, n, p)
  {
    hide Prod, Sheet.Valid;
    if n == 0 {
      DotZeroRight(v, Const(s.nX, 0.0));
    } else {
      DotScatter(s, f, n - 1, v, p);
      CellInRange(s, n - 1);
      ScatterAt(s, f, n - 1, n - 1);
      var before := Scatter(s, f, n - 1);
      var x := s.cells[n - 1].iX;
      assert before[x := f(n - 1)] == before[x := before[x] + f(n - 1)];
      DotUpdate(v, before, x, f(n - 1));
    }
  }

  lemma CellInRange(s: Sheet, k: nat)
    requires s.Valid() && k < |s.cells|
    ensures s.cells[k].iX < s.nX && s.cells[k].iA < s.nA && s.cells[k].iI < |s.elevmaskI| && s.cells[k].area > 0.0
  {
  }

  /** Adding the entries of one exchange cell changes one row of the product. */
  lemma {:induction false} ApplyCell(S: Triplets, c: ExCell, st: seq<Share>, y: seq<real>, m: nat)
    requires InBounds(S, m, |y|) && c.iX < m && forall k :: 0 <= k < |st| ==> st[k].j < |y|
    ensures InBounds(S + StencilEntries(c, st), m, |y|)
    ensures Apply(S + StencilEntries(c, st), y, m)
         == Apply(S, y, m)[c.iX := Apply(S, y, m)[c.iX] + Prod(c.area, Interpolate(st, y))]
  {
    hide Prod;
    if |st| == 0 {
      assert S + StencilEntries(c, st) == S;
      ProdConst(c.area);
    } else {
      var n := |st| - 1;
      ApplyCell(S, c, st[..n], y, m);
      var T := S + StencilEntries(c, st);
      assert T[..|T| - 1] == S + StencilEntries(c, st[..n]);
      assert T[|T| - 1] == Entry(c.iX, st[n].j, Prod(c.area, st[n].w));
      ProdAssoc(c.area, st[n].w, y[st[n].j]);
      ProdPlus(c.area, Interpolate(st[..n], y), Prod(st[n].w, y[st[n].j]));
    }
  }

  lemma UrNext(s: Sheet, g: Grid, n: nat)
    requires s.Valid() && (g == E ==> s.AllInBounds()) && 0 < n <= |s.cells|
    ensures g == E && s.Unmasked(s.cells[n - 1]) ==> s.InBounds(s.cells[n - 1])
    ensures Ur(s, g, n) == if s.Unmasked(s.cells[n - 1])
                           then Ur(s, g, n - 1) + StencilEntries(s.cells[n - 1], Stencil(s, g, s.cells[n - 1]))
                           else Ur(s, g, n - 1)
  {
    hide Stencil, StencilEntries, Sheet.InBounds;
  }

  lemma ScatterNext(s: Sheet, f: int -> real, n: nat)
    requires s.Valid() && 0 < n <= |s.cells| && s.cells[n - 1].iX < s.nX
    ensures Scatter(s, f, n) == Scatter(s, f, n - 1)[s.cells[n - 1].iX := f(n - 1)]
    ensures Scatter(s, f, n - 1)[s.cells[n - 1].iX] == 0.0
  {
    ScatterAt(s, f, n - 1, n - 1);
  }

  lemma ApplyUrEmpty(s: Sheet, g: Grid, y: seq<real>)
    requires s.Valid() && (g == E ==> s.AllInBounds()) && |y| == s.Extent(g)
    ensures InBounds(Ur(s, g, 0), s.nX, |y|)
    ensures Apply(Ur(s, g, 0), y, s.nX) == Scatter(s, CellTotal(s, g, y), 0)
  {
    hide Prod, CellTotal, Sheet.Valid, Sheet.AllInBounds;
  }

  lemma ApplyUrNext(s: Sheet, g: Grid, y: seq<real>, n: nat)
    requires s.Valid() && (g == E ==> s.AllInBounds()) && |y| == s.Extent(g) && 0 < n <= |s.cells|
    requires InBounds(Ur(s, g, n - 1), s.nX, |y|) && InBounds(Ur(s, g, n), s.nX, |y|)
    requires Apply(Ur(s, g, n - 1), y, s.nX) == Scatter(s, CellTotal(s, g, y), n - 1)
    ensures Apply(Ur(s, g, n), y, s.nX) == Scatter(s, CellTotal(s, g, y), n)
  {
    hide *;
    var c, f := s.cells[n - 1], CellTotal(s, g, y);
    CellInRange(s, n - 1);
    UrNext(s, g, n);
    ScatterNext(s, f, n);
    CellTotalAt(s, g, y, n - 1);
    if s.Unmasked(c) {
      ApplyCell(Ur(s, g, n - 1), c, Stencil(s, g, c), y, s.nX);
    } else {
      var before := Scatter(s, f, n - 1);
      assert before[c.iX := 0.0] == before;
    }
  }

  /** Ur y holds, at each unmasked exchange cell, its area times the cell's value of y. */
  lemma {:induction false} ApplyUr(s: Sheet, g: Grid, y: seq<real>, n: nat)
    requires s.Valid() && (g == E ==> s.AllInBounds()) && |y| == s.Extent(g) && n <= |s.cells|
    ensures InBounds(Ur(s, g, n), s.nX, |y|)
    ensures Apply(Ur(s, g, n), y, s.nX) == Scatter(s, CellTotal(s, g, y), n)
  {
    hide *;
    if n == 0 {
      ApplyUrEmpty(s, g, y);
    } else {
      ApplyUr(s, g, y, n - 1);
      UrInBounds(s, g, n);
      ApplyUrNext(s, g, y, n);
    }
  }

  lemma CellTotalAt(s: Sheet, g: Grid, y: seq<real>, k: nat)
    requires s.Valid() && (g == E ==> s.AllInBounds()) && |y| == s.Extent(g) && k < |s.cells|
    ensures !s.Unmasked(s.cells[k]) ==> CellTotal(s, g, y)(k) == 0.0
    ensures s.Unmasked(s.cells[k]) ==>
      && (forall i :: 0 <= i < |Stencil(s, g, s.cells[k])| ==> Stencil(s, g, s.cells[k])[i].j < |y|)
      && CellTotal(s, g, y)(k) == Prod(s.cells[k].area, Interpolate(Stencil(s, g, s.cells[k]), y))
  {
    hide Prod, Stencil;
    StencilInBounds(s, g, s.cells[k]);
    ProdConst(CellMean(s, g, y, k));
  }

  lemma StencilOk(s: Sheet, g: Grid, k: nat)
    requires s.Valid() && (g == E ==> s.AllInBounds()) && k < |s.cells|
    ensures g == E && s.Unmasked(s.cells[k]) ==> s.InBounds(s.cells[k])
  {
  }

  // ---------------------------------------------------------------- products of Ur matrices

  /** Ur(g1)' diag(1 / row sums of Ur(gd)) Ur(g2): the unscaled matrix from grid g2 to grid g1. */
  ghost function UrProduct(s: Sheet, g1: Grid, gd: Grid, g2: Grid): Triplets
    requires s.Valid() && (E in {g1, gd, g2} ==> s.AllInBounds())
  {
    UrInBounds(s, g1, |s.cells|);
    Mul(ScaleCols(Transpose(Ur(s, g1, |s.cells|)), UrScale(s, gd)), Ur(s, g2, |s.cells|))
  }

  /** Contribution of exchange cell k to y' U x. */
  ghost function FormTerm(s: Sheet, g1: Grid, g2: Grid, y: seq<real>, x: seq<real>): int -> real
    requires s.Valid() && (E in {g1, g2} ==> s.AllInBounds()) && |y| == s.Extent(g1) && |x| == s.Extent(g2)
  {
    k => Prod(CellArea(s, k), Prod(CellMean(s, g1, y, k), CellMean(s, g2, x, k)))
  }

  /** The area-weighted inner product of a field on g1 and a field on g2, over the exchange grid. */
  ghost function Form(s: Sheet, g1: Grid, g2: Grid, y: seq<real>, x: seq<real>): real
    requires s.Valid() && (E in {g1, g2} ==> s.AllInBounds()) && |y| == s.Extent(g1) && |x| == s.Extent(g2)
  {
    RangeSum(0, |s.cells|, FormTerm(s, g1, g2, y, x))
  }

  /** The shares of a cell add up to 1, in both interpolation styles. */
  lemma ShareSum(s: Sheet, g: Grid, k: nat)
    requires s.Valid() && (g == E ==> s.AllInBounds()) && k < |s.cells|
    ensures s.Unmasked(s.cells[k]) ==> CellMean(s, g, Ones(s.Extent(g)), k) == 1.0
  {
    hide Prod, ElevationIndexing, ElevationIndex, Distinct;
    if s.Unmasked(s.cells[k]) {
      StencilOk(s, g, k);
      StencilInBounds(s, g, s.cells[k]);
      SumOfShares(Stencil(s, g, s.cells[k]), s.Extent(g));
      StencilShares(s, g, s.cells[k]);
    }
  }

  ghost function ShareTotal(st: seq<Share>): real
  {
    if |st| == 0 then 0.0 else ShareTotal(st[..|st| - 1]) + st[|st| - 1].w
  }

  lemma {:induction false} SumOfShares(st: seq<Share>, n: nat)
    requires forall k :: 0 <= k < |st| ==> st[k].j < n
    ensures Interpolate(st, Ones(n)) == ShareTotal(st)
  {
    hide Prod;
    if |st| > 0 {
      SumOfShares(st[..|st| - 1], n);
      ProdConst(st[|st| - 1].w);
    }
  }

  lemma ShareTotalTwo(a: seq<Share>, b: seq<Share>)
    requires |a| <= 1 && |b| <= 1
    ensures ShareTotal(a + b) == (if |a| == 1 then a[0].w else 0.0) + (if |b| == 1 then b[0].w else 0.0)
  {
    if |a| == 1 { assert a[..0] == []; }
    if |b| == 1 {
      assert b[..0] == [];
      assert (a + b)[..|a|] == a;
    } else {
      assert a + b == a;
    }
  }

  /** With Z_INTERP, a cell shares its area between the two classes that bracket its elevation. */
  lemma BracketShares(s: Sheet, c: ExCell) returns (b: Bracket, a0: seq<Share>, a1: seq<Share>)
    requires s.Valid() && s.style == Z_INTERP && c in s.cells && s.Unmasked(c) && s.InBounds(c)
    ensures Stencil(s, E, c) == a0 + a1 && 1 <= b.i1 < |s.hcdefs|
    ensures a0 == if b.w0 != 0.0 then [ToShare(ElevationIndex(s.hc, c.iA, b.i1 - 1), b.w0)] else []
    ensures a1 == if b.w1 != 0.0 then [ToShare(ElevationIndex(s.hc, c.iA, b.i1), b.w1)] else []
    ensures b.w0 + b.w1 == 1.0
    ensures Prod(b.w0, s.hcdefs[b.i1 - 1]) + Prod(b.w1, s.hcdefs[b.i1]) == s.Elevation(c)
    ensures s.Elevation(c) <= s.hcdefs[b.i1]
    ensures s.hcdefs[b.i1 - 1] < s.Elevation(c) || (b.i1 == 1 && s.Elevation(c) <= s.hcdefs[0])
  {
    hide Prod, ElevationIndex, Distinct, Linterp, Nearest, ToShare;
    b := Linterp(s.hcdefs, s.Elevation(c)).value;
    a0 := if b.w0 != 0.0 then [ToShare(ElevationIndex(s.hc, c.iA, b.i1 - 1), b.w0)] else [];
    a1 := if b.w1 != 0.0 then [ToShare(ElevationIndex(s.hc, c.iA, b.i1), b.w1)] else [];
  }

  lemma StencilShares(s: Sheet, g: Grid, c: ExCell)
    requires s.Valid() && c in s.cells && s.Unmasked(c) && (g == E ==> s.InBounds(c))
    ensures ShareTotal(Stencil(s, g, c)) == 1.0
  {
    if g == E && s.style == Z_INTERP {
      hide Prod, ElevationIndex, Stencil, ShareTotal, Sheet.Valid, Sheet.InBounds, Sheet.Elevation;
      var b, a0, a1 := BracketShares(s, c);
      ShareTotalTwo(a0, a1);
    } else {
      OneShare(s, g, c);
    }
  }

  lemma OneShare(s: Sheet, g: Grid, c: ExCell)
    requires s.Valid() && c in s.cells && s.Unmasked(c) && (g == E ==> s.InBounds(c) && s.style != Z_INTERP)
    ensures ShareTotal(Stencil(s, g, c)) == 1.0
  {
    hide ElevationIndex, Distinct, Linterp, Nearest, ShareTotal;
    var st := Stencil(s, g, c);
    ShareTotalTwo(st, []);
    assert st + [] == st;
  }

  ghost function UrScale(s: Sheet, gd: Grid): (d: seq<real>)
    requires s.Valid() && (gd == E ==> s.AllInBounds())
    ensures |d| == s.nX
  {
    UrInBounds(s, gd, |s.cells|);
    Inverse(RowSums(Ur(s, gd, |s.cells|), s.nX, s.Extent(gd)))
  }

  /** Row sums of every Ur matrix are the areas of the unmasked exchange cells. */
  lemma UrScaleAt(s: Sheet, gd: Grid, k: nat)
    requires s.Valid() && (gd == E ==> s.AllInBounds()) && k < |s.cells|
    ensures UrScale(s, gd)[s.cells[k].iX] == Recip(CellArea(s, k))
  {
    hide Prod, Sheet.AllInBounds, CellMean;
    ApplyUr(s, gd, Ones(s.Extent(gd)), |s.cells|);
    ScatterAt(s, CellTotal(s, gd, Ones(s.Extent(gd))), |s.cells|, k);
    ShareSum(s, gd, k);
    ProdConst(CellArea(s, k));
    ProdConst(CellMean(s, gd, Ones(s.Extent(gd)), k));
  }

  lemma TermArithmetic(area: real, a: real, b: real)
    ensures Prod(Prod(Recip(area), Prod(area, b)), Prod(area, a)) == Prod(area, Prod(a, b))
  {
    hide Prod, Recip;
    if area == 0.0 {
      ProdConst(a);
      ProdConst(Prod(a, b));
      ProdConst(Prod(Recip(area), Prod(area, b)));
    } else {
      assert Recip(area) == 1.0 / area by { RecipIs(area); }
      ProdAssoc(Recip(area), area, b);
      ProdInverse(area);
      ProdComm(area, 1.0 / area);
      ProdConst(b);
      ProdAssoc(b, area, a);
      ProdComm(b, area);
      ProdAssoc(area, b, a);
      ProdComm(a, b);
    }
  }

  lemma RecipIs(a: real)
    ensures Recip(a) == if a == 0.0 then 0.0 else 1.0 / a
  {
  }

  lemma FormTermIs(s: Sheet, g1: Grid, gd: Grid, g2: Grid, y: seq<real>, x: seq<real>, z: seq<real>, k: nat)
    requires s.Valid() && (E in {g1, gd, g2} ==> s.AllInBounds()) && k < |s.cells|
    requires |y| == s.Extent(g1) && |x| == s.Extent(g2)
    requires z == Hadamard(UrScale(s, gd), Scatter(s, CellTotal(s, g2, x), |s.cells|))
    ensures s.cells[k].iX < |z|
    ensures FormTerm(s, g1, g2, y, x)(k) == Prod(z[s.cells[k].iX], CellTotal(s, g1, y)(k))
  {
    hide Prod, Recip, Sheet.AllInBounds, UrScale, CellMean, CellArea;
    UrScaleAt(s, gd, k);
    ScatterAt(s, CellTotal(s, g2, x), |s.cells|, k);
    TermArithmetic(CellArea(s, k), CellMean(s, g1, y, k), CellMean(s, g2, x, k));
  }

  /** The meaning of a product of Ur matrices: an area-weighted inner product over the exchange cells. */
  lemma UrProductForm(s: Sheet, g1: Grid, gd: Grid, g2: Grid, y: seq<real>, x: seq<real>)
    requires s.Valid() && (E in {g1, gd, g2} ==> s.AllInBounds())
    requires |y| == s.Extent(g1) && |x| == s.Extent(g2)
    ensures InBounds(UrProduct(s, g1, gd, g2), |y|, |x|)
    ensures Bilin(UrProduct(s, g1, gd, g2), y, x) == Form(s, g1, g2, y, x)
  {
    hide Prod, Sheet.Valid, Sheet.AllInBounds, Ur, FormTerm, CellTotal;
    var n := |s.cells|;
    UrInBounds(s, g1, n);
    UrInBounds(s, g2, n);
    var u, t, d := Ur(s, g1, n), Ur(s, g2, n), UrScale(s, gd);
    var left := ScaleCols(Transpose(u), d);
    MulInBounds(left, t, |y|, s.nX, |x|);
    BilinMul(left, t, y, s.nX, x);
    ApplyUr(s, g1, y, n);
    ApplyUr(s, g2, x, n);
    var v := Apply(t, x, s.nX);
    BilinScaleCols(Transpose(u), d, y, v);
    var z := Hadamard(d, v);
    BilinTranspose(u, z, y);
    DotApply(u, z, y);
    forall k | 0 <= k < n
      ensures s.cells[k].iX < |z| && FormTerm(s, g1, g2, y, x)(k) == Prod(z[s.cells[k].iX], CellTotal(s, g1, y)(k))
    {
      FormTermIs(s, g1, gd, g2, y, x, z, k);
    }
    DotScatter(s, CellTotal(s, g1, y), n, z, FormTerm(s, g1, g2, y, x));
  }

  // ---------------------------------------------------------------- the regridding matrices

  datatype RegridParams = RegridParams(scale: bool, correctA: bool)

  /** A regridding matrix with the weights of its rows and of its columns. */
  datatype Weighted = Weighted(wM: seq<real>, M: Triplets, Mw: seq<real>)

  /** compute_AEvI; ratio is the diagonal of sApvA (or sEpvE). */
  ghost function ComputeAEvI(s: Sheet, g: Grid, ratio: seq<real>, p: RegridParams): Weighted
    requires s.Valid() && g != I && (g == E ==> s.AllInBounds()) && |ratio| == s.Extent(g)
  {
    UrProductInBounds(s, g, I, I);
    var m, n := s.Extent(g), s.Extent(I);
    var apvI := UrProduct(s, g, I, I);
    var wApvI := RowSums(apvI, m, n);
    var mw := ColSums(apvI, m, n);
    if p.correctA then
      Weighted(Hadamard(ratio, wApvI),
               if p.scale then ScaleRows(Hadamard(Inverse(ratio), Inverse(wApvI)), apvI) else apvI, mw)
    else
      Weighted(wApvI, if p.scale then ScaleRows(Inverse(wApvI), apvI) else apvI, mw)
  }

  /** compute_IvAE without smoothing. */
  ghost function ComputeIvAE(s: Sheet, g: Grid, ratio: seq<real>, p: RegridParams): Weighted
    requires s.Valid() && g != I && (g == E ==> s.AllInBounds()) && |ratio| == s.Extent(g)
  {
    UrProductInBounds(s, I, g, g);
    var ivAp := UrProduct(s, I, g, g);
    Finish(ivAp, s.Extent(I), s.Extent(g), ratio, p)
  }

  /** compute_IvAE for the exchange grid in place of the ice grid (XvA, XvE). */
  ghost function ComputeXvAE(s: Sheet, g: Grid, ratio: seq<real>, p: RegridParams): Weighted
    requires s.Valid() && g != I && (g == E ==> s.AllInBounds()) && |ratio| == s.Extent(g)
  {
    UrInBounds(s, g, |s.cells|);
    Finish(Ur(s, g, |s.cells|), s.nX, s.Extent(g), ratio, p)
  }

  /** The final scaling of compute_IvAE. */
  ghost function Finish(ivAp: Triplets, m: nat, n: nat, ratio: seq<real>, p: RegridParams): Weighted
    requires InBounds(ivAp, m, n) && |ratio| == n
  {
    var w := RowSums(ivAp, m, n);
    var colSums := ColSums(ivAp, m, n);
    if p.correctA then
      Weighted(w, ScaleCols(if p.scale then ScaleRows(Inverse(w), ivAp) else ivAp, ratio), Hadamard(ratio, colSums))
    else
      Weighted(w, if p.scale then ScaleRows(Inverse(w), ivAp) else ivAp, colSums)
  }

  /** compute_EvA, used for both EvA (e = E, a = A) and AvE (e = A, a = E). */
  ghost function ComputeEvA(s: Sheet, e: Grid, a: Grid, ratioE: seq<real>, ratioA: seq<real>, p: RegridParams): Weighted
    requires s.Valid() && {e, a} == {A, E} && s.AllInBounds()
    requires |ratioE| == s.Extent(e) && |ratioA| == s.Extent(a)
  {
    UrProductInBounds(s, e, a, a);
    var m, n := s.Extent(e), s.Extent(a);
    var epvAp := UrProduct(s, e, a, a);
    var w := RowSums(epvAp, m, n);
    var colSums := ColSums(epvAp, m, n);
    if p.correctA then
      var wEvAp := Hadamard(ratioE, w);
      Weighted(wEvAp, ScaleCols(if p.scale then ScaleRows(Inverse(wEvAp), epvAp) else epvAp, ratioA),
               Hadamard(ratioA, colSums))
    else
      Weighted(w, if p.scale then ScaleRows(Inverse(w), epvAp) else epvAp, colSums)
  }

  lemma UrProductInBounds(s: Sheet, g1: Grid, gd: Grid, g2: Grid)
    requires s.Valid() && (E in {g1, gd, g2} ==> s.AllInBounds())
    ensures InBounds(UrProduct(s, g1, gd, g2), s.Extent(g1), s.Extent(g2))
  {
    UrInBounds(s, g1, |s.cells|);
    UrInBounds(s, g2, |s.cells|);
    MulInBounds(ScaleCols(Transpose(Ur(s, g1, |s.cells|)), UrScale(s, gd)), Ur(s, g2, |s.cells|),
                s.Extent(g1), s.nX, s.Extent(g2));
  }

  // ---------------------------------------------------------------- conservation

  /** Row weights of every row that holds entries are non-zero, as scaling demands. */
  ghost predicate RowsScalable(T: Triplets, w: seq<real>)
  {
    forall k :: 0 <= k < |T| ==> T[k].i < |w| && w[T[k].i] != 0.0
  }

  /** The total over the rows, weighted by wM if the matrix is scaled, is the total over the columns. */
  ghost predicate Conserves(W: Weighted, scaled: bool)
  {
    && InBounds(W.M, |W.wM|, |W.Mw|)
    && forall x: seq<real> :: |x| == |W.Mw| ==>
         Dot(if scaled then W.wM else Ones(|W.wM|), Apply(W.M, x, |W.wM|)) == Dot(W.Mw, x)
  }

  /** diag(d) U diag(c) conserves when d undoes the weights w on every row that holds entries. */
  lemma ScaledConserves(U: Triplets, w: seq<real>, d: seq<real>, c: seq<real>, x: seq<real>)
    requires |w| == |d| && |c| == |x| && InBounds(U, |w|, |x|)
    requires forall k :: 0 <= k < |U| ==> Prod(w[U[k].i], d[U[k].i]) == 1.0
    ensures InBounds(ScaleCols(ScaleRows(d, U), c), |w|, |x|)
    ensures Dot(w, Apply(ScaleCols(ScaleRows(d, U), c), x, |w|)) == Dot(Hadamard(c, ColSums(U, |w|, |x|)), x)
  {
    hide Prod;
    var T := ScaleRows(d, U);
    DotApply(ScaleCols(T, c), w, x);
    BilinScaleCols(T, c, w, x);
    BilinScaleRows(d, U, w, Hadamard(c, x));
    BilinSameRows(U, Hadamard(w, d), Ones(|w|), Hadamard(c, x));
    ColumnTotals(U, |w|, c, x);
  }

  lemma UnscaledConserves(U: Triplets, m: nat, c: seq<real>, x: seq<real>)
    requires |c| == |x| && InBounds(U, m, |x|)
    ensures InBounds(ScaleCols(U, c), m, |x|)
    ensures Dot(Ones(m), Apply(ScaleCols(U, c), x, m)) == Dot(Hadamard(c, ColSums(U, m, |x|)), x)
  {
    hide Prod;
    DotApply(ScaleCols(U, c), Ones(m), x);
    BilinScaleCols(U, c, Ones(m), x);
    ColumnTotals(U, m, c, x);
  }

  lemma ColumnTotals(U: Triplets, m: nat, c: seq<real>, x: seq<real>)
    requires |c| == |x| && InBounds(U, m, |x|)
    ensures Bilin(U, Ones(m), Hadamard(c, x)) == Dot(Hadamard(c, ColSums(U, m, |x|)), x)
  {
    hide Prod;
    var sums := ColSums(U, m, |x|);
    DotApplyTranspose(U, Ones(m), Hadamard(c, x));
    DotHadamard(sums, c, x);
    HadamardComm(sums, c);
  }

  lemma HadamardComm(a: seq<real>, b: seq<real>)
    requires |a| == |b|
    ensures Hadamard(a, b) == Hadamard(b, a)
  {
    hide Prod;
    forall k | 0 <= k < |a| ensures Hadamard(a, b)[k] == Hadamard(b, a)[k] { ProdComm(a[k], b[k]); }
  }

  lemma HadamardOnes(a: seq<real>)
    ensures Hadamard(Ones(|a|), a) == a
  {
    hide Prod;
    forall k | 0 <= k < |a| ensures Hadamard(Ones(|a|), a)[k] == a[k] { ProdConst(a[k]); }
  }

  lemma InverseUndoes(w: seq<real>, k: nat)
    requires k < |w| && w[k] != 0.0
    ensures Prod(w[k], Inverse(w)[k]) == 1.0
  {
    hide Prod;
    ProdInverse(w[k]);
  }

  lemma ConserveAll(U: Triplets, w: seq<real>, c: seq<real>, scale: bool)
    requires InBounds(U, |w|, |c|) && (scale ==> RowsScalable(U, w))
    ensures Conserves(Weighted(w, ScaleCols(if scale then ScaleRows(Inverse(w), U) else U, c),
                               Hadamard(c, ColSums(U, |w|, |c|))), scale)
  {
    hide Prod, ColSums, Inverse;
    var M := ScaleCols(if scale then ScaleRows(Inverse(w), U) else U, c);
    var mw := Hadamard(c, ColSums(U, |w|, |c|));
    forall x: seq<real> | |x| == |c|
      ensures InBounds(M, |w|, |c|) && Dot(if scale then w else Ones(|w|), Apply(M, x, |w|)) == Dot(mw, x)
    {
      if scale {
        forall k | 0 <= k < |U| ensures Prod(w[U[k].i], Inverse(w)[U[k].i]) == 1.0 {
          InverseUndoes(w, U[k].i);
        }
        ScaledConserves(U, w, Inverse(w), c, x);
      } else {
        UnscaledConserves(U, |w|, c, x);
      }
    }
    assert |c| == |Ones(|c|)|;
  }

  /** Leaving out a column correction is the same as a correction by 1. */
  lemma NoCorrection(U: Triplets, m: nat, n: nat)
    requires InBounds(U, m, n)
    ensures ScaleCols(U, Ones(n)) == U && Hadamard(Ones(n), ColSums(U, m, n)) == ColSums(U, m, n)
  {
    hide Prod, ColSums;
    HadamardOnes(ColSums(U, m, n));
    ScaleColsOnes(U, n);
  }

  lemma ScaledInBounds(U: Triplets, m: nat, n: nat, d: seq<real>)
    requires InBounds(U, m, n) && |d| == m
    ensures InBounds(ScaleRows(d, U), m, n)
  {
  }

  lemma FinishConserves(U: Triplets, m: nat, n: nat, ratio: seq<real>, p: RegridParams)
    requires InBounds(U, m, n) && |ratio| == n && (p.scale ==> RowsScalable(U, RowSums(U, m, n)))
    ensures Conserves(Finish(U, m, n, ratio, p), p.scale)
  {
    hide Prod, RowSums, ColSums, Inverse, Conserves, RowsScalable;
    var w := RowSums(U, m, n);
    ScaledInBounds(U, m, n, Inverse(w));
    ConserveAll(U, w, if p.correctA then ratio else Ones(n), p.scale);
    NoCorrection(U, m, n);
    ScaleColsOnes(ScaleRows(Inverse(w), U), n);
  }

  lemma InverseHadamard(a: seq<real>, b: seq<real>)
    requires |a| == |b|
    ensures Hadamard(Inverse(a), Inverse(b)) == Inverse(Hadamard(a, b))
  {
    hide Prod, Recip;
    forall k | 0 <= k < |a| ensures Prod(Recip(a[k]), Recip(b[k])) == Recip(Prod(a[k], b[k])) {
      RecipProd(a[k], b[k]);
    }
  }

  lemma RecipProd(a: real, b: real)
    ensures Prod(Recip(a), Recip(b)) == Recip(Prod(a, b))
  {
    if a != 0.0 && b != 0.0 {
      assert (1.0 / a) * (1.0 / b) * (a * b) == 1.0;
      assert a * b != 0.0;
      assert 1.0 / (a * b) * (a * b) == 1.0;
    }
  }

  /** compute_AEvI conserves, in every setting of scale and correctA. */
  lemma AEvIConserves(s: Sheet, g: Grid, ratio: seq<real>, p: RegridParams)
    requires s.Valid() && g != I && (g == E ==> s.AllInBounds()) && |ratio| == s.Extent(g)
    requires p.scale ==> RowsScalable(UrProduct(s, g, I, I), ComputeAEvI(s, g, ratio, p).wM)
    ensures Conserves(ComputeAEvI(s, g, ratio, p), p.scale)
  {
    hide Prod, RowSums, ColSums, Inverse, Conserves, RowsScalable, UrProduct, Sheet.Valid, Sheet.AllInBounds;
    UrProductInBounds(s, g, I, I);
    var m, n := s.Extent(g), s.Extent(I);
    var U := UrProduct(s, g, I, I);
    var w := if p.correctA then Hadamard(ratio, RowSums(U, m, n)) else RowSums(U, m, n);
    ConserveAll(U, w, Ones(n), p.scale);
    ScaledInBounds(U, m, n, Inverse(w));
    NoCorrection(U, m, n);
    ScaleColsOnes(ScaleRows(Inverse(w), U), n);
    InverseHadamard(ratio, RowSums(U, m, n));
  }

  /** compute_IvAE without smoothing conserves, in every setting of scale and correctA. */
  lemma IvAEConserves(s: Sheet, g: Grid, ratio: seq<real>, p: RegridParams)
    requires s.Valid() && g != I && (g == E ==> s.AllInBounds()) && |ratio| == s.Extent(g)
    requires p.scale ==> RowsScalable(UrProduct(s, I, g, g), ComputeIvAE(s, g, ratio, p).wM)
    ensures Conserves(ComputeIvAE(s, g, ratio, p), p.scale)
  {
    hide Prod, RowSums, ColSums, Inverse, Conserves, RowsScalable, UrProduct, Sheet.Valid, Sheet.AllInBounds;
    UrProductInBounds(s, I, g, g);
    FinishConserves(UrProduct(s, I, g, g), s.Extent(I), s.Extent(g), ratio, p);
  }

  /** compute_EvA conserves for EvA and AvE, in every setting of scale and correctA. */
  lemma EvAConserves(s: Sheet, e: Grid, a: Grid, ratioE: seq<real>, ratioA: seq<real>, p: RegridParams)
    requires s.Valid() && {e, a} == {A, E} && s.AllInBounds()
    requires |ratioE| == s.Extent(e) && |ratioA| == s.Extent(a)
    requires p.scale ==> RowsScalable(UrProduct(s, e, a, a), ComputeEvA(s, e, a, ratioE, ratioA, p).wM)
    ensures Conserves(ComputeEvA(s, e, a, ratioE, ratioA, p), p.scale)
  {
    hide Prod, RowSums, ColSums, Inverse, Conserves, RowsScalable, UrProduct, Sheet.Valid, Sheet.AllInBounds;
    UrProductInBounds(s, e, a, a);
    var m, n := s.Extent(e), s.Extent(a);
    var U := UrProduct(s, e, a, a);
    var w := if p.correctA then Hadamard(ratioE, RowSums(U, m, n)) else RowSums(U, m, n);
    ConserveAll(U, w, if p.correctA then ratioA else Ones(n), p.scale);
    ScaledInBounds(U, m, n, Inverse(w));
    NoCorrection(U, m, n);
    ScaleColsOnes(ScaleRows(Inverse(w), U), n);
  }

  // ---------------------------------------------------------------- transposes

  lemma FormSymmetric(s: Sheet, g1: Grid, g2: Grid, y: seq<real>, x: seq<real>)
    requires s.Valid() && (E in {g1, g2} ==> s.AllInBounds()) && |y| == s.Extent(g1) && |x| == s.Extent(g2)
    ensures Form(s, g1, g2, y, x) == Form(s, g2, g1, x, y)
  {
    hide Prod, CellArea, CellMean, Sheet.AllInBounds, Sheet.Valid;
    forall k ensures FormTerm(s, g1, g2, y, x)(k) == FormTerm(s, g2, g1, x, y)(k) {
      ProdComm(CellMean(s, g1, y, k), CellMean(s, g2, x, k));
    }
    RangeSumSame(0, |s.cells|, FormTerm(s, g1, g2, y, x), FormTerm(s, g2, g1, x, y));
  }

  /**
   The unscaled, uncorrected matrices between two grids are transposes of each other, whichever Ur matrix
   provided the scaling in the middle: AvI and IvA, EvI and IvE, EvA and AvE.
   */
  lemma MutualTransposes(s: Sheet, g1: Grid, gd: Grid, g2: Grid, gd': Grid, i: nat, j: nat)
    requires s.Valid() && (E in {g1, gd, g2, gd'} ==> s.AllInBounds())
    requires i < s.Extent(g1) && j < s.Extent(g2)
    ensures At(UrProduct(s, g1, gd, g2), i, j) == At(UrProduct(s, g2, gd', g1), j, i)
  {
    hide Prod, Form, UrProduct, Sheet.AllInBounds, Sheet.Valid;
    var m, n := s.Extent(g1), s.Extent(g2);
    UrProductForm(s, g1, gd, g2, Unit(m, i), Unit(n, j));
    UrProductForm(s, g2, gd', g1, Unit(n, j), Unit(m, i));
    BilinUnits(UrProduct(s, g1, gd, g2), m, n, i, j);
    BilinUnits(UrProduct(s, g2, gd', g1), n, m, j, i);
    FormSymmetric(s, g1, g2, Unit(m, i), Unit(n, j));
  }
}
