/**
 The values in AvI, IvA, EvI, IvE, EvA, AvE, XvA and XvE (slib/icebin/RegridMatrices_Dynamic.cpp), told by the areas of
 the exchange cells and by the shares of grid cells in them.
 */
module MatrixValues {
  import opened Vectors
  import opened Sums
  import opened Sparse
  import opened Indexing
  import opened VerticalInterp
  import opened ExchangeGrid
  import opened RegridMatrices
  import opened RegridProperties

  // ---------------------------------------------------------------- areas

  ghost function CoveredTerm(s: Sheet, g: Grid, i: nat): int -> real
    requires s.Valid() && (g == E ==> s.AllInBounds())
  {
    k => Prod(CellArea(s, k), CellMean(s, g, Unit(s.Extent(g), i), k))
  }

  /** The area of grid cell i that unmasked exchange cells cover: each counts with the share that i has in it. */
  ghost function Covered(s: Sheet, g: Grid, i: nat): real
    requires s.Valid() && (g == E ==> s.AllInBounds())
  {
    RangeSum(0, |s.cells|, CoveredTerm(s, g, i))
  }

  /** The area that cell i of g1 and cell j of g2 have in common: each exchange cell counts with both shares. */
  ghost function Common(s: Sheet, g1: Grid, i: nat, g2: Grid, j: nat): real
    requires s.Valid() && (E in {g1, g2} ==> s.AllInBounds())
  {
    Form(s, g1, g2, Unit(s.Extent(g1), i), Unit(s.Extent(g2), j))
  }

  /** Exchange cell k lies in cell i of the atmosphere grid or of the ice grid. */
  ghost predicate Inside(s: Sheet, g: Grid, i: nat, k: int)
    requires g != E
  {
    0 <= k < |s.cells| && s.Unmasked(s.cells[k]) && i == if g == A then s.cells[k].iA else s.cells[k].iI
  }

  /** For an atmosphere or ice cell the covered area is the summed area of the exchange cells inside it. */
  lemma CoveredIs(s: Sheet, g: Grid, i: nat, f: int -> real)
    requires s.Valid() && g != E && i < s.Extent(g)
    requires forall k :: 0 <= k < |s.cells| ==> f(k) == if Inside(s, g, i, k) then s.cells[k].area else 0.0
    ensures Covered(s, g, i) == RangeSum(0, |s.cells|, f)
  {
    hide Prod, CellMean;
    var y := Unit(s.Extent(g), i);
    forall k | 0 <= k < |s.cells| ensures CoveredTerm(s, g, i)(k) == f(k) {
      ProdConst(CellArea(s, k));
      ProdConst(CellMean(s, g, y, k));
      if s.Unmasked(s.cells[k]) {
        CellInRange(s, k);
        if g == A { CellMeanA(s, y, k); } else { CellMeanI(s, y, k); }
      }
    }
    RangeSumSame(0, |s.cells|, CoveredTerm(s, g, i), f);
  }

  // ---------------------------------------------------------------- products of Ur matrices

  lemma ProductValue(s: Sheet, g1: Grid, gd: Grid, g2: Grid, i: nat, j: nat)
    requires s.Valid() && (E in {g1, gd, g2} ==> s.AllInBounds()) && i < s.Extent(g1) && j < s.Extent(g2)
    ensures InBounds(UrProduct(s, g1, gd, g2), s.Extent(g1), s.Extent(g2))
    ensures At(UrProduct(s, g1, gd, g2), i, j) == Common(s, g1, i, g2, j)
  {
    hide Prod, Form, UrProduct, At, Bilin, Sheet.Valid, Sheet.AllInBounds;
    UrProductForm(s, g1, gd, g2, Unit(s.Extent(g1), i), Unit(s.Extent(g2), j));
    BilinUnits(UrProduct(s, g1, gd, g2), s.Extent(g1), s.Extent(g2), i, j);
  }

  lemma UnitTerms(s: Sheet, g1: Grid, g2: Grid, y: seq<real>, k: nat)
    requires s.Valid() && (E in {g1, g2} ==> s.AllInBounds()) && |y| == s.Extent(g1) && k < |s.cells|
    ensures FormTerm(s, g1, g2, y, Ones(s.Extent(g2)))(k) == Prod(CellArea(s, k), CellMean(s, g1, y, k))
    ensures FormTerm(s, g2, g1, Ones(s.Extent(g2)), y)(k) == Prod(CellArea(s, k), CellMean(s, g1, y, k))
  {
    hide Prod, CellMean, Sheet.Valid, Sheet.AllInBounds;
    ShareSum(s, g2, k);
    ProdConst(CellMean(s, g1, y, k));
    ProdConst(Prod(CellMean(s, g1, y, k), CellMean(s, g2, Ones(s.Extent(g2)), k)));
    ProdConst(Prod(CellMean(s, g2, Ones(s.Extent(g2)), k), CellMean(s, g1, y, k)));
  }

  /** Rows and columns of a product total the covered areas. */
  lemma ProductSums(s: Sheet, g1: Grid, gd: Grid, g2: Grid)
    requires s.Valid() && (E in {g1, gd, g2} ==> s.AllInBounds())
    ensures InBounds(UrProduct(s, g1, gd, g2), s.Extent(g1), s.Extent(g2))
    ensures forall i: nat :: i < s.Extent(g1) ==>
              RowSums(UrProduct(s, g1, gd, g2), s.Extent(g1), s.Extent(g2))[i] == Covered(s, g1, i)
    ensures forall j: nat :: j < s.Extent(g2) ==>
              ColSums(UrProduct(s, g1, gd, g2), s.Extent(g1), s.Extent(g2))[j] == Covered(s, g2, j)
  {
    hide *;
    UrProductInBounds(s, g1, gd, g2);
    forall i: nat | i < s.Extent(g1)
      ensures RowSums(UrProduct(s, g1, gd, g2), s.Extent(g1), s.Extent(g2))[i] == Covered(s, g1, i)
    {
      RowTotal(s, g1, gd, g2, i);
    }
    forall j: nat | j < s.Extent(g2)
      ensures ColSums(UrProduct(s, g1, gd, g2), s.Extent(g1), s.Extent(g2))[j] == Covered(s, g2, j)
    {
      ColumnTotal(s, g1, gd, g2, j);
    }
  }

  lemma RowTotal(s: Sheet, g1: Grid, gd: Grid, g2: Grid, i: nat)
    requires s.Valid() && (E in {g1, gd, g2} ==> s.AllInBounds()) && i < s.Extent(g1)
    ensures InBounds(UrProduct(s, g1, gd, g2), s.Extent(g1), s.Extent(g2))
    ensures RowSums(UrProduct(s, g1, gd, g2), s.Extent(g1), s.Extent(g2))[i] == Covered(s, g1, i)
  {
    hide Prod, UrProduct, Bilin, Apply, FormTerm, CoveredTerm, Sheet.Valid, Sheet.AllInBounds;
    var m, n := s.Extent(g1), s.Extent(g2);
    UrProductForm(s, g1, gd, g2, Unit(m, i), Ones(n));
    ApplyElement(UrProduct(s, g1, gd, g2), Ones(n), m, i);
    forall k | 0 <= k < |s.cells| ensures FormTerm(s, g1, g2, Unit(m, i), Ones(n))(k) == CoveredTerm(s, g1, i)(k) {
      UnitTerms(s, g1, g2, Unit(m, i), k);
      TermIs(s, g1, i, k);
    }
    RangeSumSame(0, |s.cells|, FormTerm(s, g1, g2, Unit(m, i), Ones(n)), CoveredTerm(s, g1, i));
  }

  lemma TermIs(s: Sheet, g: Grid, i: nat, k: int)
    requires s.Valid() && (g == E ==> s.AllInBounds())
    ensures CoveredTerm(s, g, i)(k) == Prod(CellArea(s, k), CellMean(s, g, Unit(s.Extent(g), i), k))
  {
  }

  lemma ColumnTotal(s: Sheet, g1: Grid, gd: Grid, g2: Grid, j: nat)
    requires s.Valid() && (E in {g1, gd, g2} ==> s.AllInBounds()) && j < s.Extent(g2)
    ensures InBounds(UrProduct(s, g1, gd, g2), s.Extent(g1), s.Extent(g2))
    ensures ColSums(UrProduct(s, g1, gd, g2), s.Extent(g1), s.Extent(g2))[j] == Covered(s, g2, j)
  {
    hide Prod, UrProduct, Bilin, Apply, FormTerm, CoveredTerm, Sheet.Valid, Sheet.AllInBounds;
    var m, n := s.Extent(g1), s.Extent(g2);
    var U, u := UrProduct(s, g1, gd, g2), Unit(n, j);
    UrProductForm(s, g1, gd, g2, Ones(m), u);
    DotApplyTranspose(U, Ones(m), u);
    DotComm(ColSums(U, m, n), u);
    DotUnit(n, j, ColSums(U, m, n));
    forall k | 0 <= k < |s.cells| ensures FormTerm(s, g1, g2, Ones(m), u)(k) == CoveredTerm(s, g2, j)(k) {
      UnitTerms(s, g2, g1, u, k);
      TermIs(s, g2, j, k);
    }
    RangeSumSame(0, |s.cells|, FormTerm(s, g1, g2, Ones(m), u), CoveredTerm(s, g2, j));
  }

  // ---------------------------------------------------------------- scaled matrices

  lemma {:induction false} AtScaledRows(d: seq<real>, T: Triplets, i: nat, j: nat)
    requires i < |d| && forall k :: 0 <= k < |T| ==> T[k].i < |d|
    ensures At(ScaleRows(d, T), i, j) == Prod(d[i], At(T, i, j))
  {
    hide Prod;
    if |T| == 0 {
      ProdConst(d[i]);
    } else {
      var n := |T| - 1;
      AtScaledRows(d, T[..n], i, j);
      assert ScaleRows(d, T)[..n] == ScaleRows(d, T[..n]);
      ProdPlus(d[i], At(T[..n], i, j), T[n].v);
      ProdConst(d[i]);
    }
  }

  lemma {:induction false} AtScaledCols(T: Triplets, d: seq<real>, i: nat, j: nat)
    requires j < |d| && forall k :: 0 <= k < |T| ==> T[k].j < |d|
    ensures At(ScaleCols(T, d), i, j) == Prod(At(T, i, j), d[j])
  {
    hide Prod;
    if |T| == 0 {
      ProdConst(d[j]);
    } else {
      var n := |T| - 1;
      AtScaledCols(T[..n], d, i, j);
      assert ScaleCols(T, d)[..n] == ScaleCols(T[..n], d);
      ProdPlus(d[j], At(T[..n], i, j), T[n].v);
      ProdConst(d[j]);
    }
  }

  /** W holds the common areas u(i, j), each row divided by its weight if the matrix is scaled. */
  ghost predicate HoldsValue(W: Weighted, scaled: bool, i: nat, j: nat, u: real)
  {
    i < |W.wM| && (scaled && W.wM[i] != 0.0 ==> Prod(W.wM[i], At(W.M, i, j)) == u) && (!scaled ==> At(W.M, i, j) == u)
  }

  /** x, times r if the matrix is corrected */
  function Corrected(p: RegridParams, r: real, x: real): real
  {
    if p.correctA then Prod(r, x) else x
  }

  lemma WeightTimes(w: real, u: real, r: real)
    requires w != 0.0
    ensures Prod(w, Prod(Recip(w), u)) == u && Prod(w, Prod(Prod(Recip(w), u), r)) == Prod(r, u)
  {
    assert w * (1.0 / w) == 1.0;
    assert w * ((1.0 / w) * u) == (w * (1.0 / w)) * u;
    assert w * (((1.0 / w) * u) * r) == ((w * (1.0 / w)) * u) * r;
  }

  /** diag(1 / w) U diag(c) with weights w. */
  lemma ScaledValue(U: Triplets, w: seq<real>, c: seq<real>, mw: seq<real>, p: RegridParams, i: nat, j: nat)
    requires InBounds(U, |w|, |c|) && i < |w| && j < |c|
    ensures forall k :: 0 <= k < |U| ==> U[k].j < |c| && U[k].i < |w|
    ensures var V := if p.scale then ScaleRows(Inverse(w), U) else U;
      && (forall k :: 0 <= k < |V| ==> V[k].j < |c|)
      && HoldsValue(Weighted(w, if p.correctA then ScaleCols(V, c) else V, mw), p.scale, i, j,
                    Corrected(p, c[j], At(U, i, j)))
  {
    hide Prod, At;
    var V := if p.scale then ScaleRows(Inverse(w), U) else U;
    AtScaledRows(Inverse(w), U, i, j);
    AtScaledCols(V, c, i, j);
    ProdComm(At(U, i, j), c[j]);
    if w[i] != 0.0 {
      WeightTimes(w[i], At(U, i, j), c[j]);
    }
  }

  // ---------------------------------------------------------------- the matrices of the program

  /**
   IvA (g = A) and IvE (g = E): wM is the covered area of the ice cells, Mw that of the other grid's cells, corrected;
   the values are the common areas, corrected by columns, over the uncorrected weight.
   */
  lemma IvAEValues(s: Sheet, g: Grid, ratio: seq<real>, p: RegridParams, i: nat, j: nat)
    requires s.Valid() && g != I && (g == E ==> s.AllInBounds()) && |ratio| == s.Extent(g)
    requires i < s.Extent(I) && j < s.Extent(g)
    ensures var W := ComputeIvAE(s, g, ratio, p);
      && InBounds(W.M, |W.wM|, |W.Mw|) && |W.wM| == s.Extent(I) && |W.Mw| == s.Extent(g)
      && W.wM[i] == Covered(s, I, i) && W.Mw[j] == Corrected(p, ratio[j], Covered(s, g, j))
      && HoldsValue(W, p.scale, i, j, Corrected(p, ratio[j], Common(s, I, i, g, j)))
  {
    hide Prod, At, UrProduct, RowSums, ColSums, Covered, Common, Inverse, HoldsValue, Sheet.Valid, Sheet.AllInBounds;
    ProductSums(s, I, g, g);
    ProductValue(s, I, g, g, i, j);
    var U, m, n := UrProduct(s, I, g, g), s.Extent(I), s.Extent(g);
    var w := RowSums(U, m, n);
    ScaledValue(U, w, ratio, if p.correctA then Hadamard(ratio, ColSums(U, m, n)) else ColSums(U, m, n), p, i, j);
  }

  /**
   EvA (e = E) and AvE (e = A): wM is the covered area of the rows, corrected, Mw that of the columns, corrected; the
   values are the common areas, corrected by columns, over wM.
   */
  lemma EvAValues(s: Sheet, e: Grid, a: Grid, ratioE: seq<real>, ratioA: seq<real>, p: RegridParams, i: nat, j: nat)
    requires s.Valid() && {e, a} == {A, E} && s.AllInBounds()
    requires |ratioE| == s.Extent(e) && |ratioA| == s.Extent(a) && i < s.Extent(e) && j < s.Extent(a)
    ensures var W := ComputeEvA(s, e, a, ratioE, ratioA, p);
      && InBounds(W.M, |W.wM|, |W.Mw|) && |W.wM| == s.Extent(e) && |W.Mw| == s.Extent(a)
      && W.wM[i] == Corrected(p, ratioE[i], Covered(s, e, i)) && W.Mw[j] == Corrected(p, ratioA[j], Covered(s, a, j))
      && HoldsValue(W, p.scale, i, j, Corrected(p, ratioA[j], Common(s, e, i, a, j)))
  {
    hide Prod, At, UrProduct, RowSums, ColSums, Covered, Common, Inverse, HoldsValue, Sheet.Valid, Sheet.AllInBounds;
    ProductSums(s, e, a, a);
    ProductValue(s, e, a, a, i, j);
    var U, m, n := UrProduct(s, e, a, a), s.Extent(e), s.Extent(a);
    var w := if p.correctA then Hadamard(ratioE, RowSums(U, m, n)) else RowSums(U, m, n);
    ScaledValue(U, w, ratioA, if p.correctA then Hadamard(ratioA, ColSums(U, m, n)) else ColSums(U, m, n), p, i, j);
  }

  lemma InverseProducts(ratio: seq<real>, w: seq<real>)
    requires |ratio| == |w|
    ensures Hadamard(Inverse(ratio), Inverse(w)) == Inverse(Hadamard(ratio, w))
  {
    hide Prod, Recip;
    forall k | 0 <= k < |w| ensures Prod(Recip(ratio[k]), Recip(w[k])) == Recip(Prod(ratio[k], w[k])) {
      RecipProd(ratio[k], w[k]);
      ProdComm(Recip(ratio[k]), Recip(w[k]));
    }
  }

  /**
   AvI (g = A) and EvI (g = E): wM is the covered area of the rows, corrected, Mw that of the ice cells; the values are
   the common areas over wM.
   */
  lemma AEvIValues(s: Sheet, g: Grid, ratio: seq<real>, p: RegridParams, i: nat, j: nat)
    requires s.Valid() && g != I && (g == E ==> s.AllInBounds()) && |ratio| == s.Extent(g)
    requires i < s.Extent(g) && j < s.Extent(I)
    ensures var W := ComputeAEvI(s, g, ratio, p);
      && InBounds(W.M, |W.wM|, |W.Mw|) && |W.wM| == s.Extent(g) && |W.Mw| == s.Extent(I)
      && W.wM[i] == Corrected(p, ratio[i], Covered(s, g, i)) && W.Mw[j] == Covered(s, I, j)
      && HoldsValue(W, p.scale, i, j, Common(s, g, i, I, j))
  {
    hide Prod, At, UrProduct, RowSums, ColSums, Covered, Common, Inverse, HoldsValue, Sheet.Valid, Sheet.AllInBounds;
    ProductSums(s, g, I, I);
    ProductValue(s, g, I, I, i, j);
    var U, m, n := UrProduct(s, g, I, I), s.Extent(g), s.Extent(I);
    InverseProducts(ratio, RowSums(U, m, n));
    var w := if p.correctA then Hadamard(ratio, RowSums(U, m, n)) else RowSums(U, m, n);
    ScaledValue(U, w, Ones(n), ColSums(U, m, n), RegridParams(p.scale, false), i, j);
  }

  lemma UrValue(s: Sheet, g: Grid, k: nat, j: nat)
    requires s.Valid() && (g == E ==> s.AllInBounds()) && k < |s.cells| && j < s.Extent(g)
    ensures InBounds(Ur(s, g, |s.cells|), s.nX, s.Extent(g)) && s.cells[k].iX < s.nX
    ensures At(Ur(s, g, |s.cells|), s.cells[k].iX, j) == CoveredTerm(s, g, j)(k)
    ensures RowSums(Ur(s, g, |s.cells|), s.nX, s.Extent(g))[s.cells[k].iX] == CellArea(s, k)
  {
    hide Prod, Ur, At, Bilin, Apply, CellMean, Sheet.Valid, Sheet.AllInBounds;
    var n, x, u := s.Extent(g), s.cells[k].iX, Unit(s.Extent(g), j);
    CellInRange(s, k);
    ApplyUr(s, g, u, |s.cells|);
    ApplyUr(s, g, Ones(n), |s.cells|);
    ScatterAt(s, CellTotal(s, g, u), |s.cells|, k);
    ScatterAt(s, CellTotal(s, g, Ones(n)), |s.cells|, k);
    BilinUnits(Ur(s, g, |s.cells|), s.nX, n, x, j);
    ApplyElement(Ur(s, g, |s.cells|), u, s.nX, x);
    ShareSum(s, g, k);
    ProdConst(CellArea(s, k));
    ProdConst(CellMean(s, g, Ones(n), k));
  }

  /** Columns of a Ur matrix total the covered areas. */
  lemma UrColumns(s: Sheet, g: Grid, j: nat)
    requires s.Valid() && (g == E ==> s.AllInBounds()) && j < s.Extent(g)
    ensures InBounds(Ur(s, g, |s.cells|), s.nX, s.Extent(g))
    ensures ColSums(Ur(s, g, |s.cells|), s.nX, s.Extent(g))[j] == Covered(s, g, j)
  {
    hide Prod, Ur, Bilin, Apply, CellMean, CellTotal, Sheet.Valid, Sheet.AllInBounds;
    var U, n, u := Ur(s, g, |s.cells|), s.Extent(g), Unit(s.Extent(g), j);
    ApplyUr(s, g, u, |s.cells|);
    DotApplyTranspose(U, Ones(s.nX), u);
    DotComm(ColSums(U, s.nX, n), u);
    DotUnit(n, j, ColSums(U, s.nX, n));
    DotApply(U, Ones(s.nX), u);
    forall k | 0 <= k < |s.cells|
      ensures s.cells[k].iX < s.nX && CoveredTerm(s, g, j)(k) == Prod(Ones(s.nX)[s.cells[k].iX], CellTotal(s, g, u)(k))
    {
      CellInRange(s, k);
      CellTotalIs(s, g, u, k);
      TermIs(s, g, j, k);
      ProdConst(CellTotal(s, g, u)(k));
    }
    DotScatter(s, CellTotal(s, g, u), |s.cells|, Ones(s.nX), CoveredTerm(s, g, j));
  }

  lemma CellTotalIs(s: Sheet, g: Grid, y: seq<real>, k: int)
    requires s.Valid() && (g == E ==> s.AllInBounds()) && |y| == s.Extent(g)
    ensures CellTotal(s, g, y)(k) == Prod(CellArea(s, k), CellMean(s, g, y, k))
  {
  }

  /**
   XvA and XvE: wM is the area of the exchange cells, Mw the covered area of the columns, corrected; the values are
   the shares in the exchange cells, corrected by columns, over the uncorrected weight.
   */
  lemma XvAEValues(s: Sheet, g: Grid, ratio: seq<real>, p: RegridParams, k: nat, j: nat)
    requires s.Valid() && g != I && (g == E ==> s.AllInBounds()) && |ratio| == s.Extent(g)
    requires k < |s.cells| && j < s.Extent(g)
    ensures var W, x := ComputeXvAE(s, g, ratio, p), s.cells[k].iX;
      && InBounds(W.M, |W.wM|, |W.Mw|) && |W.wM| == s.nX && |W.Mw| == s.Extent(g) && x < s.nX
      && W.wM[x] == CellArea(s, k) && W.Mw[j] == Corrected(p, ratio[j], Covered(s, g, j))
      && HoldsValue(W, p.scale, x, j, Corrected(p, ratio[j], CoveredTerm(s, g, j)(k)))
  {
    hide Prod, At, Ur, RowSums, ColSums, Covered, CoveredTerm, Inverse, HoldsValue, Sheet.Valid, Sheet.AllInBounds;
    UrValue(s, g, k, j);
    UrColumns(s, g, j);
    var U, m, n := Ur(s, g, |s.cells|), s.nX, s.Extent(g);
    var w := RowSums(U, m, n);
    ScaledValue(U, w, ratio, if p.correctA then Hadamard(ratio, ColSums(U, m, n)) else ColSums(U, m, n), p,
                s.cells[k].iX, j);
  }

  // ---------------------------------------------------------------- constant fields

  /** W maps the constant c to itself on every row with weight. */
  ghost predicate KeepsConstants(W: Weighted)
  {
    && InBounds(W.M, |W.wM|, |W.Mw|)
    && forall c: real, i: nat :: i < |W.wM| && W.wM[i] != 0.0 ==> Apply(W.M, Const(|W.Mw|, c), |W.wM|)[i] == c
  }

  lemma ScaledKeepsConstants(U: Triplets, m: nat, n: nat, mw: seq<real>)
    requires InBounds(U, m, n) && |mw| == n
    ensures KeepsConstants(Weighted(RowSums(U, m, n), ScaleRows(Inverse(RowSums(U, m, n)), U), mw))
  {
    hide Prod, RowSums, Apply, Inverse;
    ScaledInBounds(U, m, n, Inverse(RowSums(U, m, n)));
    forall c: real, i: nat | i < m && RowSums(U, m, n)[i] != 0.0
      ensures Apply(ScaleRows(Inverse(RowSums(U, m, n)), U), Const(n, c), m)[i] == c
    {
      ConstantsPreserved(U, m, n, c, i);
    }
  }

  /** Scaled and uncorrected, all of the program's matrices keep constants. */
  lemma MatricesKeepConstants(s: Sheet, g: Grid, h: Grid, ratioG: seq<real>, ratioH: seq<real>)
    requires s.Valid() && s.AllInBounds() && {g, h} == {A, E}
    requires |ratioG| == s.Extent(g) && |ratioH| == s.Extent(h)
    ensures var p := RegridParams(true, false);
      && KeepsConstants(ComputeAEvI(s, g, ratioG, p)) && KeepsConstants(ComputeIvAE(s, g, ratioG, p))
      && KeepsConstants(ComputeXvAE(s, g, ratioG, p)) && KeepsConstants(ComputeEvA(s, g, h, ratioG, ratioH, p))
  {
    hide Prod, UrProduct, Ur, RowSums, ColSums, Inverse, KeepsConstants, Sheet.Valid, Sheet.AllInBounds;
    var m, n, l := s.Extent(g), s.Extent(h), s.Extent(I);
    UrProductInBounds(s, g, I, I);
    UrProductInBounds(s, I, g, g);
    UrProductInBounds(s, g, h, h);
    UrInBounds(s, g, |s.cells|);
    ScaledKeepsConstants(UrProduct(s, g, I, I), m, l, ColSums(UrProduct(s, g, I, I), m, l));
    ScaledKeepsConstants(UrProduct(s, I, g, g), l, m, ColSums(UrProduct(s, I, g, g), l, m));
    ScaledKeepsConstants(UrProduct(s, g, h, h), m, n, ColSums(UrProduct(s, g, h, h), m, n));
    ScaledKeepsConstants(Ur(s, g, |s.cells|), s.nX, m, ColSums(Ur(s, g, |s.cells|), s.nX, m));
  }
}
