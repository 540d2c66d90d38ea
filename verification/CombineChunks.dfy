/**
 Putting together the matrices of all chunks (modele/combine_global_ec.cpp): the result is the matrix that one run
 over all the ice would have given.
 */
module CombineChunks {
  import opened Wrappers
  import opened Vectors
  import opened Sums
  import opened Sparse
  import opened VerticalInterp
  import opened Indexing
  import opened ExchangeGrid
  import opened RegridMatrices
  import opened RegridProperties
  import opened Ints
  import opened GlobalChunks

  // ---------------------------------------------------------------- combining

  ghost predicate ChunksFit(chunks: seq<Weighted>, m: nat, n: nat)
  {
    forall k :: 0 <= k < |chunks| ==> InBounds(chunks[k].M, m, n) && |chunks[k].wM| == m && |chunks[k].Mw| == n
  }

  ghost function RowWeights(chunks: seq<Weighted>, m: nat, n: nat, k: nat): (r: seq<real>)
    requires ChunksFit(chunks, m, n) && k <= |chunks|
    ensures |r| == m
  {
    if k == 0 then Const(m, 0.0) else Plus(RowWeights(chunks, m, n, k - 1), chunks[k - 1].wM)
  }

  ghost function ColumnWeights(chunks: seq<Weighted>, m: nat, n: nat, k: nat): (r: seq<real>)
    requires ChunksFit(chunks, m, n) && k <= |chunks|
    ensures |r| == n
  {
    if k == 0 then Const(n, 0.0) else Plus(ColumnWeights(chunks, m, n, k - 1), chunks[k - 1].Mw)
  }

  ghost function Concatenated(chunks: seq<Weighted>, k: nat): Triplets
    requires k <= |chunks|
  {
    if k == 0 then [] else Concatenated(chunks, k - 1) + chunks[k - 1].M
  }

  /** Weights and entries of one chunk, added to those of the chunks before it. */
  method AddEntries(M0: Triplets, values: Triplets, scale: bool, sM: seq<real>) returns (M: Triplets)
    requires forall k :: 0 <= k < |values| ==> values[k].i < |sM|
    ensures M == M0 + if scale then ScaleRows(sM, values) else values
  {
    hide Prod;
    M := M0;
    for i := 0 to |values|
      invariant |M| == |M0| + i && M[..|M0|] == M0
      invariant forall l :: 0 <= l < i ==> M[|M0| + l] == if scale then ScaleRows(sM, values)[l] else values[l]
    {
      var e := values[i];
      if scale {
        M := M + [Entry(e.i, e.j, Prod(e.v, sM[e.i]))];
        ProdComm(e.v, sM[e.i]);
      } else {
        M := M + [e];
      }
    }
  }

  lemma ScaleRowsConcat(d: seq<real>, S: Triplets, T: Triplets, m: nat, n: nat)
    requires |d| == m && InBounds(S, m, n) && InBounds(T, m, n)
    ensures InBounds(S + T, m, n) && ScaleRows(d, S + T) == ScaleRows(d, S) + ScaleRows(d, T)
  {
    hide Prod;
  }

  lemma {:induction false} ConcatenatedInBounds(chunks: seq<Weighted>, m: nat, n: nat, k: nat)
    requires ChunksFit(chunks, m, n) && k <= |chunks|
    ensures InBounds(Concatenated(chunks, k), m, n)
  {
    if k > 0 {
      ConcatenatedInBounds(chunks, m, n, k - 1);
      InBoundsConcat(Concatenated(chunks, k - 1), chunks[k - 1].M, m, n);
    }
  }

  /** The first loop over the files: row weights, before they are inverted. */
  method SumRowWeights(chunks: seq<Weighted>, m: nat, n: nat) returns (sM: array<real>)
    requires ChunksFit(chunks, m, n)
    ensures fresh(sM) && sM[..] == RowWeights(chunks, m, n, |chunks|)
  {
    hide Plus, InBounds;
    sM := new real[m](_ => 0.0);
    assert sM[..] == Const(m, 0.0);
    for k := 0 to |chunks|
      invariant fresh(sM) && sM[..] == RowWeights(chunks, m, n, k)
    {
      AddInto(sM, chunks[k].wM);
    }
  }

  /** The entries of the first k chunks, scaled by sM if scale is on. */
  ghost function Assembled(chunks: seq<Weighted>, m: nat, n: nat, scale: bool, sM: seq<real>, k: nat): Triplets
    requires ChunksFit(chunks, m, n) && k <= |chunks| && |sM| == m
  {
    ConcatenatedInBounds(chunks, m, n, k);
    if scale then ScaleRows(sM, Concatenated(chunks, k)) else Concatenated(chunks, k)
  }

  lemma AssembledNext(chunks: seq<Weighted>, m: nat, n: nat, scale: bool, sM: seq<real>, k: nat)
    requires ChunksFit(chunks, m, n) && k < |chunks| && |sM| == m
    ensures forall l :: 0 <= l < |chunks[k].M| ==> chunks[k].M[l].i < m
    ensures Assembled(chunks, m, n, scale, sM, k + 1)
         == Assembled(chunks, m, n, scale, sM, k) + if scale then ScaleRows(sM, chunks[k].M) else chunks[k].M
  {
    hide Prod;
    ConcatenatedInBounds(chunks, m, n, k);
    ScaleRowsConcat(sM, Concatenated(chunks, k), chunks[k].M, m, n);
  }

  /** The number of atmosphere cells that the locality check takes for granted. */
  const CELLS_OF_A := 12960

  /** What the check of AvE looks at: the elevation index, less full layers of cells, is the atmosphere cell. */
  ghost predicate FixedGridLocal(T: Triplets)
  {
    forall k :: 0 <= k < |T| ==> T[k].i == T[k].j % CELLS_OF_A
  }

  method CheckLocal(values: Triplets) returns (ok: bool)
    ensures ok <==> FixedGridLocal(values)
  {
    for i := 0 to |values|
      invariant forall k :: 0 <= k < i ==> values[k].i == values[k].j % CELLS_OF_A
    {
      if values[i].i != values[i].j % CELLS_OF_A {
        return false;
      }
    }
    return true;
  }

  ghost predicate AllLocal(chunks: seq<Weighted>, n: nat)
    requires n <= |chunks|
  {
    forall k :: 0 <= k < n ==> FixedGridLocal(chunks[k].M)
  }

  /**
   combine_chunks: adds up the weights, inverts them to scale factors, and appends the entries of all chunks; None where
   the program stops because AvE is not local.
   */
  method Combine(chunks: seq<Weighted>, m: nat, n: nat, scale: bool, isAvE: bool) returns (ret: Option<Weighted>)
    requires ChunksFit(chunks, m, n)
    ensures InBounds(Concatenated(chunks, |chunks|), m, n)
    ensures ret.Some? <==> (isAvE ==> AllLocal(chunks, |chunks|))
    ensures ret.Some? ==> ret.value.wM == RowWeights(chunks, m, n, |chunks|)
    ensures ret.Some? ==> ret.value.Mw == ColumnWeights(chunks, m, n, |chunks|)
    ensures ret.Some? ==>
              ret.value.M == if scale then ScaleRows(Inverse(ret.value.wM), Concatenated(chunks, |chunks|))
                             else Concatenated(chunks, |chunks|)
  {
    hide Plus, Assembled, Inverse, InBounds, ScaleRows, FixedGridLocal;
    var sM := SumRowWeights(chunks, m, n);
    var wM := sM[..];
    var scales := Inverse(wM);
    var M: Triplets := [];
    var Mw := new real[n](_ => 0.0);
    assert Mw[..] == Const(n, 0.0);
    NothingAssembled(chunks, m, n, scale, scales);
    AssembledAll(chunks, m, n, scale, scales);
    for k := 0 to |chunks|
      invariant Mw[..] == ColumnWeights(chunks, m, n, k)
      invariant M == Assembled(chunks, m, n, scale, scales, k)
      invariant isAvE ==> AllLocal(chunks, k)
    {
      AssembledNext(chunks, m, n, scale, scales, k);
      M := AddEntries(M, chunks[k].M, scale, scales);
      if isAvE {
        var ok := CheckLocal(chunks[k].M);
        if !ok {
          return None;
        }
      }
      AddInto(Mw, chunks[k].Mw);
    }
    ret := Some(Weighted(wM, M, Mw[..]));
  }

  /** On the grid that it is meant for, and with the classes as the largest stride, the check never stops. */
  lemma AvEPassesCheck(s: Sheet)
    requires s.Valid() && s.AllInBounds() && s.nA == 12960 && s.hc.indices == [1, 0]
    ensures FixedGridLocal(UrProduct(s, A, E, E))
  {
    hide ElevationIndex, UrProduct, HasShare, Sheet.InBounds, ElevationIndexing;
    var T := UrProduct(s, A, E, E);
    forall l | 0 <= l < |T| ensures T[l].i == T[l].j % CELLS_OF_A {
      assert T[l] in T;
      var k := ProductEntry(s, A, E, E, T[l]);
      OwnAtmosphereCell(s, k, T[l].i);
      var h := ShareClass(s, k, T[l].j);
      LargestStrideIndex(s.hc, s.nA, |s.hcdefs|, T[l].i, h);
      LayersOf(h, T[l].i);
    }
  }

  lemma LayersOf(h: nat, a: nat)
    requires a < CELLS_OF_A
    ensures (Times(h, CELLS_OF_A) + a) % CELLS_OF_A == a
  {
    QuotRemUnique(h, CELLS_OF_A, a);
  }

  lemma NothingAssembled(chunks: seq<Weighted>, m: nat, n: nat, scale: bool, sM: seq<real>)
    requires ChunksFit(chunks, m, n) && |sM| == m
    ensures Assembled(chunks, m, n, scale, sM, 0) == []
  {
  }

  lemma AssembledAll(chunks: seq<Weighted>, m: nat, n: nat, scale: bool, sM: seq<real>)
    requires ChunksFit(chunks, m, n) && |sM| == m
    ensures InBounds(Concatenated(chunks, |chunks|), m, n)
    ensures Assembled(chunks, m, n, scale, sM, |chunks|)
         == if scale then ScaleRows(sM, Concatenated(chunks, |chunks|)) else Concatenated(chunks, |chunks|)
  {
    ConcatenatedInBounds(chunks, m, n, |chunks|);
  }

  // ---------------------------------------------------------------- splitting the ice

  /** The chunk's ice mask shows some of the ice of s, at the same elevations. */
  ghost predicate PartOf(part: Sheet, s: Sheet)
  {
    && part.cells == s.cells && part.hcdefs == s.hcdefs && part.style == s.style && part.hc == s.hc
    && part.nA == s.nA && part.nX == s.nX && |part.elevmaskI| == |s.elevmaskI|
    && forall i :: 0 <= i < |s.elevmaskI| && part.elevmaskI[i].Some? ==> part.elevmaskI[i] == s.elevmaskI[i]
  }

  /** Every ice cell of s is in the mask of exactly one chunk. */
  ghost predicate SplitsIce(parts: seq<Sheet>, s: Sheet)
  {
    && (forall c :: 0 <= c < |parts| ==> PartOf(parts[c], s))
    && forall i :: 0 <= i < |s.elevmaskI| && s.elevmaskI[i].Some? ==>
         exists c :: 0 <= c < |parts| && OnlyIn(parts, c, i)
  }

  ghost predicate OnlyIn(parts: seq<Sheet>, c: nat, i: nat)
  {
    && c < |parts| && i < |parts[c].elevmaskI| && parts[c].elevmaskI[i].Some?
    && forall d :: 0 <= d < |parts| && d != c && i < |parts[d].elevmaskI| ==> parts[d].elevmaskI[i].None?
  }

  lemma PartValid(part: Sheet, s: Sheet)
    requires s.Valid() && PartOf(part, s)
    ensures part.Valid() && (s.AllInBounds() ==> part.AllInBounds())
    ensures part.Extent(A) == s.Extent(A) && part.Extent(E) == s.Extent(E) && part.Extent(I) == s.Extent(I)
  {
    hide Linterp, ElevationIndexing;
  }

  /** An exchange cell that a chunk shows counts there as it does in the whole. */
  lemma SameCellTerm(part: Sheet, s: Sheet, g: Grid, y: seq<real>, k: nat)
    requires s.Valid() && (g == E ==> s.AllInBounds()) && PartOf(part, s) && |y| == s.Extent(g) && k < |s.cells|
    requires part.Valid() && (g == E ==> part.AllInBounds()) && |y| == part.Extent(g)
    ensures part.Unmasked(s.cells[k]) ==>
              CellMean(part, g, y, k) == CellMean(s, g, y, k) && CellArea(part, k) == CellArea(s, k)
    ensures !part.Unmasked(s.cells[k]) ==> CellArea(part, k) == 0.0
  {
    hide Prod, Linterp, Nearest, ElevationIndex, Interpolate, ElevationIndexing, Distinct, ToShare;
  }

  // ---------------------------------------------------------------- chunked equals monolithic

  ghost predicate Splittable(parts: seq<Sheet>, s: Sheet, g1: Grid, gd: Grid, g2: Grid)
  {
    s.Valid() && (E in {g1, gd, g2} ==> s.AllInBounds()) && SplitsIce(parts, s)
  }

  lemma PartOk(parts: seq<Sheet>, s: Sheet, g1: Grid, gd: Grid, g2: Grid, c: nat)
    requires Splittable(parts, s, g1, gd, g2) && c < |parts|
    ensures parts[c].Valid() && (E in {g1, gd, g2} ==> parts[c].AllInBounds()) && PartOf(parts[c], s)
    ensures parts[c].Extent(g1) == s.Extent(g1) && parts[c].Extent(g2) == s.Extent(g2) && |parts[c].cells| == |s.cells|
  {
    hide Sheet.Valid, Sheet.AllInBounds;
    PartValid(parts[c], s);
  }

  /** The unscaled, uncorrected matrix with its weights, as each chunk writes it. */
  ghost function PlainMatrix(s: Sheet, g1: Grid, gd: Grid, g2: Grid): Weighted
    requires s.Valid() && (E in {g1, gd, g2} ==> s.AllInBounds())
  {
    UrProductInBounds(s, g1, gd, g2);
    var U := UrProduct(s, g1, gd, g2);
    Weighted(RowSums(U, s.Extent(g1), s.Extent(g2)), U, ColSums(U, s.Extent(g1), s.Extent(g2)))
  }

  /** AvI, EvI, IvA, IvE, EvA and AvE with scale and correctA off are plain matrices. */
  lemma PlainMatrices(s: Sheet, g: Grid, h: Grid, ratioG: seq<real>, ratioH: seq<real>)
    requires s.Valid() && s.AllInBounds() && g != I && |ratioG| == s.Extent(g) && {g, h} == {A, E}
    requires |ratioH| == s.Extent(h)
    ensures ComputeAEvI(s, g, ratioG, RegridParams(false, false)) == PlainMatrix(s, g, I, I)
    ensures ComputeIvAE(s, g, ratioG, RegridParams(false, false)) == PlainMatrix(s, I, g, g)
    ensures ComputeEvA(s, g, h, ratioG, ratioH, RegridParams(false, false)) == PlainMatrix(s, g, h, h)
  {
    hide Prod, UrProduct, RowSums, ColSums, Sheet.Valid, Sheet.AllInBounds, Inverse;
    UrProductInBounds(s, g, I, I);
    UrProductInBounds(s, I, g, g);
    UrProductInBounds(s, g, h, h);
  }

  /** Contributions of exchange cells to the matrices of the first n chunks. */
  ghost function PartTerms(parts: seq<Sheet>, s: Sheet, g1: Grid, gd: Grid, g2: Grid, y: seq<real>, x: seq<real>,
                           n: nat): int -> real
    requires Splittable(parts, s, g1, gd, g2) && n <= |parts| && |y| == s.Extent(g1) && |x| == s.Extent(g2)
  {
    if n == 0 then _ => 0.0
    else
      PartOk(parts, s, g1, gd, g2, n - 1);
      var before, last := PartTerms(parts, s, g1, gd, g2, y, x, n - 1), FormTerm(parts[n - 1], g1, g2, y, x);
      k => before(k) + last(k)
  }

  ghost function PartForms(parts: seq<Sheet>, s: Sheet, g1: Grid, gd: Grid, g2: Grid, y: seq<real>, x: seq<real>,
                           n: nat): real
    requires Splittable(parts, s, g1, gd, g2) && n <= |parts| && |y| == s.Extent(g1) && |x| == s.Extent(g2)
  {
    if n == 0 then 0.0
    else
      PartOk(parts, s, g1, gd, g2, n - 1);
      PartForms(parts, s, g1, gd, g2, y, x, n - 1) + Form(parts[n - 1], g1, g2, y, x)
  }

  lemma {:induction false} PartFormsAreSums(parts: seq<Sheet>, s: Sheet, g1: Grid, gd: Grid, g2: Grid,
                                            y: seq<real>, x: seq<real>, n: nat)
    requires Splittable(parts, s, g1, gd, g2) && n <= |parts| && |y| == s.Extent(g1) && |x| == s.Extent(g2)
    ensures PartForms(parts, s, g1, gd, g2, y, x, n) == RangeSum(0, |s.cells|, PartTerms(parts, s, g1, gd, g2, y, x, n))
  {
    hide Prod, FormTerm, Splittable;
    if n == 0 {
      ZeroRange(0, |s.cells|);
      RangeSumSame(0, |s.cells|, PartTerms(parts, s, g1, gd, g2, y, x, n), _ => 0.0);
    } else {
      PartOk(parts, s, g1, gd, g2, n - 1);
      PartFormsAreSums(parts, s, g1, gd, g2, y, x, n - 1);
      RangeSumPlus(0, |s.cells|, PartTerms(parts, s, g1, gd, g2, y, x, n - 1), FormTerm(parts[n - 1], g1, g2, y, x),
                   PartTerms(parts, s, g1, gd, g2, y, x, n));
    }
  }

  lemma SplittableIs(parts: seq<Sheet>, s: Sheet, g1: Grid, gd: Grid, g2: Grid)
    requires Splittable(parts, s, g1, gd, g2)
    ensures s.Valid() && (E in {g1, gd, g2} ==> s.AllInBounds()) && SplitsIce(parts, s)
  {
  }

  /** What one chunk makes of an exchange cell. */
  lemma PartTerm(parts: seq<Sheet>, s: Sheet, g1: Grid, gd: Grid, g2: Grid, y: seq<real>, x: seq<real>, c: nat, k: nat)
    requires Splittable(parts, s, g1, gd, g2) && c < |parts| && k < |s.cells|
    requires |y| == s.Extent(g1) && |x| == s.Extent(g2)
    ensures parts[c].Valid() && (E in {g1, gd, g2} ==> parts[c].AllInBounds())
    ensures parts[c].Extent(g1) == |y| && parts[c].Extent(g2) == |x|
    ensures FormTerm(parts[c], g1, g2, y, x)(k)
         == if parts[c].Unmasked(s.cells[k]) then FormTerm(s, g1, g2, y, x)(k) else 0.0
  {
    hide Prod, CellMean, CellArea, SplitsIce, Sheet.Valid, Sheet.AllInBounds, Sheet.Unmasked;
    PartOk(parts, s, g1, gd, g2, c);
    SameCellTerm(parts[c], s, g1, y, k);
    SameCellTerm(parts[c], s, g2, x, k);
    ProdConst(Prod(CellMean(parts[c], g1, y, k), CellMean(parts[c], g2, x, k)));
  }

  /** The first n chunks account for an exchange cell once its own chunk is among them. */
  lemma {:induction false} PartTermsAt(parts: seq<Sheet>, s: Sheet, g1: Grid, gd: Grid, g2: Grid,
                                       y: seq<real>, x: seq<real>, n: nat, k: nat, c: nat)
    requires Splittable(parts, s, g1, gd, g2) && n <= |parts| && |y| == s.Extent(g1) && |x| == s.Extent(g2)
    requires k < |s.cells| && OnlyIn(parts, c, s.cells[k].iI)
    ensures PartTerms(parts, s, g1, gd, g2, y, x, n)(k) == if c < n then FormTerm(s, g1, g2, y, x)(k) else 0.0
  {
    hide Prod, FormTerm, Splittable;
    if n > 0 {
      PartTermsAt(parts, s, g1, gd, g2, y, x, n - 1, k, c);
      PartTerm(parts, s, g1, gd, g2, y, x, n - 1, k);
      MaskSize(parts, s, g1, gd, g2, n - 1, k);
    }
  }

  lemma MaskSize(parts: seq<Sheet>, s: Sheet, g1: Grid, gd: Grid, g2: Grid, c: nat, k: nat)
    requires Splittable(parts, s, g1, gd, g2) && c < |parts| && k < |s.cells|
    ensures s.cells[k].iI < |parts[c].elevmaskI| == |s.elevmaskI|
  {
    hide Sheet.AllInBounds;
    PartOk(parts, s, g1, gd, g2, c);
    CellInRange(s, k);
  }

  lemma {:induction false} MaskedTerms(parts: seq<Sheet>, s: Sheet, g1: Grid, gd: Grid, g2: Grid,
                                       y: seq<real>, x: seq<real>, n: nat, k: nat)
    requires Splittable(parts, s, g1, gd, g2) && n <= |parts| && |y| == s.Extent(g1) && |x| == s.Extent(g2)
    requires k < |s.cells| && !s.Unmasked(s.cells[k])
    ensures PartTerms(parts, s, g1, gd, g2, y, x, n)(k) == FormTerm(s, g1, g2, y, x)(k) == 0.0
  {
    hide Prod, CellMean, Splittable, Sheet.Valid, Sheet.AllInBounds;
    SplittableIs(parts, s, g1, gd, g2);
    ProdConst(Prod(CellMean(s, g1, y, k), CellMean(s, g2, x, k)));
    if n > 0 {
      MaskedTerms(parts, s, g1, gd, g2, y, x, n - 1, k);
      PartTerm(parts, s, g1, gd, g2, y, x, n - 1, k);
      MaskSize(parts, s, g1, gd, g2, n - 1, k);
      assert PartOf(parts[n - 1], s) by { PartOk(parts, s, g1, gd, g2, n - 1); }
    }
  }

  /** The forms of all chunks add up to the form of the whole. */
  lemma PartFormsAddUp(parts: seq<Sheet>, s: Sheet, g1: Grid, gd: Grid, g2: Grid, y: seq<real>, x: seq<real>)
    requires Splittable(parts, s, g1, gd, g2) && |y| == s.Extent(g1) && |x| == s.Extent(g2)
    ensures PartForms(parts, s, g1, gd, g2, y, x, |parts|) == Form(s, g1, g2, y, x)
  {
    hide Prod, FormTerm, PartTerms, Sheet.Valid, Sheet.AllInBounds, Splittable;
    SplittableIs(parts, s, g1, gd, g2);
    PartFormsAreSums(parts, s, g1, gd, g2, y, x, |parts|);
    var t := PartTerms(parts, s, g1, gd, g2, y, x, |parts|);
    forall k | 0 <= k < |s.cells| ensures t(k) == FormTerm(s, g1, g2, y, x)(k) {
      CellInRange(s, k);
      if s.Unmasked(s.cells[k]) {
        var c :| 0 <= c < |parts| && OnlyIn(parts, c, s.cells[k].iI);
        PartTermsAt(parts, s, g1, gd, g2, y, x, |parts|, k, c);
      } else {
        MaskedTerms(parts, s, g1, gd, g2, y, x, |parts|, k);
      }
    }
    RangeSumSame(0, |s.cells|, t, FormTerm(s, g1, g2, y, x));
  }

  /** The chunks are the plain matrices of the parts. */
  ghost predicate ChunksOf(chunks: seq<Weighted>, parts: seq<Sheet>, s: Sheet, g1: Grid, gd: Grid, g2: Grid)
    requires Splittable(parts, s, g1, gd, g2)
  {
    && |chunks| == |parts|
    && forall c :: 0 <= c < |chunks| ==> ChunkIs(chunks[c], parts[c], g1, gd, g2)
  }

  ghost predicate ChunkIs(chunk: Weighted, part: Sheet, g1: Grid, gd: Grid, g2: Grid)
  {
    part.Valid() && (E in {g1, gd, g2} ==> part.AllInBounds()) && chunk == PlainMatrix(part, g1, gd, g2)
  }

  lemma ChunkFits(chunks: seq<Weighted>, parts: seq<Sheet>, s: Sheet, g1: Grid, gd: Grid, g2: Grid)
    requires Splittable(parts, s, g1, gd, g2) && ChunksOf(chunks, parts, s, g1, gd, g2)
    ensures ChunksFit(chunks, s.Extent(g1), s.Extent(g2))
  {
    hide Prod, UrProduct, Splittable, Sheet.Valid, Sheet.AllInBounds, RowSums, ColSums;
    forall c | 0 <= c < |chunks|
      ensures InBounds(chunks[c].M, s.Extent(g1), s.Extent(g2))
      ensures |chunks[c].wM| == s.Extent(g1) && |chunks[c].Mw| == s.Extent(g2)
    {
      PartOk(parts, s, g1, gd, g2, c);
      assert ChunkIs(chunks[c], parts[c], g1, gd, g2);
      UrProductInBounds(parts[c], g1, gd, g2);
    }
  }

  lemma {:induction false} ConcatenatedForm(chunks: seq<Weighted>, parts: seq<Sheet>, s: Sheet, g1: Grid, gd: Grid,
                                            g2: Grid, y: seq<real>, x: seq<real>, n: nat)
    requires Splittable(parts, s, g1, gd, g2) && ChunksOf(chunks, parts, s, g1, gd, g2) && n <= |chunks|
    requires |y| == s.Extent(g1) && |x| == s.Extent(g2)
    ensures InBounds(Concatenated(chunks, n), |y|, |x|)
    ensures Bilin(Concatenated(chunks, n), y, x) == PartForms(parts, s, g1, gd, g2, y, x, n)
  {
    hide Prod, UrProduct, Splittable, Sheet.Valid, Sheet.AllInBounds, RowSums, ColSums, Form, Bilin;
    ChunkFits(chunks, parts, s, g1, gd, g2);
    ConcatenatedInBounds(chunks, |y|, |x|, n);
    if n == 0 {
      BilinEmpty(y, x);
    } else {
      ConcatenatedForm(chunks, parts, s, g1, gd, g2, y, x, n - 1);
      PartOk(parts, s, g1, gd, g2, n - 1);
      assert ChunkIs(chunks[n - 1], parts[n - 1], g1, gd, g2);
      UrProductForm(parts[n - 1], g1, gd, g2, y, x);
      BilinConcat(Concatenated(chunks, n - 1), chunks[n - 1].M, y, x);
    }
  }

  /** The concatenated matrix has the coefficients of the matrix made in one run, and acts like it. */
  lemma ChunkedIsMonolithic(chunks: seq<Weighted>, parts: seq<Sheet>, s: Sheet, g1: Grid, gd: Grid, g2: Grid,
                            x: seq<real>)
    requires Splittable(parts, s, g1, gd, g2) && ChunksOf(chunks, parts, s, g1, gd, g2) && |x| == s.Extent(g2)
    ensures InBounds(Concatenated(chunks, |chunks|), s.Extent(g1), s.Extent(g2))
    ensures InBounds(UrProduct(s, g1, gd, g2), s.Extent(g1), s.Extent(g2))
    ensures forall i: nat, j: nat :: i < s.Extent(g1) && j < s.Extent(g2) ==>
              At(Concatenated(chunks, |chunks|), i, j) == At(UrProduct(s, g1, gd, g2), i, j)
    ensures Apply(Concatenated(chunks, |chunks|), x, s.Extent(g1)) == Apply(UrProduct(s, g1, gd, g2), x, s.Extent(g1))
  {
    hide Prod, UrProduct, Splittable, Sheet.Valid, Sheet.AllInBounds, Form, Bilin, At, Apply, ChunksOf, Concatenated;
    SplittableIs(parts, s, g1, gd, g2);
    var m, n, C, U := s.Extent(g1), s.Extent(g2), Concatenated(chunks, |chunks|), UrProduct(s, g1, gd, g2);
    ChunkCount(chunks, parts, s, g1, gd, g2);
    forall y: seq<real>, z: seq<real> | |y| == m && |z| == n
      ensures InBounds(C, m, n) && InBounds(U, m, n) && Bilin(C, y, z) == Bilin(U, y, z)
    {
      ConcatenatedForm(chunks, parts, s, g1, gd, g2, y, z, |chunks|);
      PartFormsAddUp(parts, s, g1, gd, g2, y, z);
      UrProductForm(s, g1, gd, g2, y, z);
    }
    assert |Ones(m)| == m && |x| == n;
    SameForm(C, U, m, n);
    forall i: nat | i < m ensures Apply(C, x, m)[i] == Apply(U, x, m)[i] {
      ApplyElement(C, x, m, i);
      ApplyElement(U, x, m, i);
    }
  }

  lemma ChunkCount(chunks: seq<Weighted>, parts: seq<Sheet>, s: Sheet, g1: Grid, gd: Grid, g2: Grid)
    requires Splittable(parts, s, g1, gd, g2) && ChunksOf(chunks, parts, s, g1, gd, g2)
    ensures |chunks| == |parts|
  {
  }

  lemma ApplyConcat(S: Triplets, T: Triplets, x: seq<real>, m: nat)
    requires InBounds(S, m, |x|) && InBounds(T, m, |x|)
    ensures InBounds(S + T, m, |x|) && Apply(S + T, x, m) == Plus(Apply(S, x, m), Apply(T, x, m))
  {
    hide Prod, Bilin, Apply;
    InBoundsConcat(S, T, m, |x|);
    forall i: nat | i < m ensures Apply(S + T, x, m)[i] == Plus(Apply(S, x, m), Apply(T, x, m))[i] {
      ApplyElement(S + T, x, m, i);
      ApplyElement(S, x, m, i);
      ApplyElement(T, x, m, i);
      BilinConcat(S, T, Unit(m, i), x);
    }
  }

  lemma TransposeConcat(S: Triplets, T: Triplets)
    ensures Transpose(S + T) == Transpose(S) + Transpose(T)
  {
  }

  ghost predicate OwnWeights(chunks: seq<Weighted>, m: nat, n: nat)
  {
    forall k :: 0 <= k < |chunks| ==>
      && InBounds(chunks[k].M, m, n)
      && chunks[k].wM == RowSums(chunks[k].M, m, n) && chunks[k].Mw == ColSums(chunks[k].M, m, n)
  }

  /** The added weights are the row and column sums of the concatenated matrix. */
  lemma {:induction false} WeightsAddUp(chunks: seq<Weighted>, m: nat, n: nat, k: nat)
    requires ChunksFit(chunks, m, n) && OwnWeights(chunks, m, n) && k <= |chunks|
    ensures InBounds(Concatenated(chunks, k), m, n)
    ensures RowWeights(chunks, m, n, k) == RowSums(Concatenated(chunks, k), m, n)
    ensures ColumnWeights(chunks, m, n, k) == ColSums(Concatenated(chunks, k), m, n)
  {
    hide Prod, InBounds;
    ConcatenatedInBounds(chunks, m, n, k);
    if k == 0 {
      assert Transpose([]) == [];
    } else {
      WeightsAddUp(chunks, m, n, k - 1);
      var S, T := Concatenated(chunks, k - 1), chunks[k - 1].M;
      ApplyConcat(S, T, Ones(n), m);
      TransposeConcat(S, T);
      TransposeInBounds(S, m, n);
      TransposeInBounds(T, m, n);
      ApplyConcat(Transpose(S), Transpose(T), Ones(m), n);
    }
  }

  lemma TransposeInBounds(T: Triplets, m: nat, n: nat)
    requires InBounds(T, m, n)
    ensures InBounds(Transpose(T), n, m)
  {
  }

  lemma SameColumnSums(S: Triplets, T: Triplets, m: nat, n: nat)
    requires InBounds(S, m, n) && InBounds(T, m, n)
    requires forall x: seq<real> :: |x| == n ==> Apply(S, x, m) == Apply(T, x, m)
    ensures ColSums(S, m, n) == ColSums(T, m, n)
  {
    hide Prod, Bilin, Apply, InBounds, ColSums;
    forall j: nat | j < n ensures ColSums(S, m, n)[j] == ColSums(T, m, n)[j] {
      ColumnSumIs(S, m, n, j);
      ColumnSumIs(T, m, n, j);
    }
  }

  lemma ColumnSumIs(T: Triplets, m: nat, n: nat, j: nat)
    requires InBounds(T, m, n) && j < n
    ensures ColSums(T, m, n)[j] == Dot(Ones(m), Apply(T, Unit(n, j), m))
  {
    hide Prod, Bilin, Apply;
    var u := Unit(n, j);
    DotApplyTranspose(T, Ones(m), u);
    DotApply(T, Ones(m), u);
    DotComm(ColSums(T, m, n), u);
    DotUnit(n, j, ColSums(T, m, n));
  }

  lemma ChunksOwnWeights(chunks: seq<Weighted>, parts: seq<Sheet>, s: Sheet, g1: Grid, gd: Grid, g2: Grid)
    requires Splittable(parts, s, g1, gd, g2) && ChunksOf(chunks, parts, s, g1, gd, g2)
    ensures OwnWeights(chunks, s.Extent(g1), s.Extent(g2))
  {
    hide Prod, UrProduct, Splittable, Sheet.Valid, Sheet.AllInBounds, RowSums, ColSums;
    forall c | 0 <= c < |chunks|
      ensures InBounds(chunks[c].M, s.Extent(g1), s.Extent(g2))
      ensures chunks[c].wM == RowSums(chunks[c].M, s.Extent(g1), s.Extent(g2))
      ensures chunks[c].Mw == ColSums(chunks[c].M, s.Extent(g1), s.Extent(g2))
    {
      PartOk(parts, s, g1, gd, g2, c);
      assert ChunkIs(chunks[c], parts[c], g1, gd, g2);
      UrProductInBounds(parts[c], g1, gd, g2);
    }
  }

  /** The combined weights are the weights of the matrix made in one run. */
  lemma CombinedWeights(chunks: seq<Weighted>, parts: seq<Sheet>, s: Sheet, g1: Grid, gd: Grid, g2: Grid)
    requires Splittable(parts, s, g1, gd, g2) && ChunksOf(chunks, parts, s, g1, gd, g2)
    ensures ChunksFit(chunks, s.Extent(g1), s.Extent(g2))
    ensures RowWeights(chunks, s.Extent(g1), s.Extent(g2), |chunks|) == PlainMatrix(s, g1, gd, g2).wM
    ensures ColumnWeights(chunks, s.Extent(g1), s.Extent(g2), |chunks|) == PlainMatrix(s, g1, gd, g2).Mw
  {
    hide Prod, UrProduct, Splittable, Sheet.Valid, Sheet.AllInBounds, Apply, ChunksOf, Concatenated, At, ChunksFit,
      OwnWeights, RowWeights, ColumnWeights, ColSums;
    SplittableIs(parts, s, g1, gd, g2);
    var m, n, C, U := s.Extent(g1), s.Extent(g2), Concatenated(chunks, |chunks|), UrProduct(s, g1, gd, g2);
    ChunkFits(chunks, parts, s, g1, gd, g2);
    ChunksOwnWeights(chunks, parts, s, g1, gd, g2);
    WeightsAddUp(chunks, m, n, |chunks|);
    UrProductInBounds(s, g1, gd, g2);
    forall x: seq<real> | |x| == n ensures Apply(C, x, m) == Apply(U, x, m) {
      ChunkedIsMonolithic(chunks, parts, s, g1, gd, g2, x);
    }
    SameColumnSums(C, U, m, n);
    assert |Ones(n)| == n;
  }

  /** With scale on, every row of the combined matrix that has weight adds up to 1. */
  lemma CombinedRowSums(chunks: seq<Weighted>, m: nat, n: nat, i: nat)
    requires ChunksFit(chunks, m, n) && OwnWeights(chunks, m, n) && i < m
    requires RowWeights(chunks, m, n, |chunks|)[i] != 0.0
    ensures InBounds(Concatenated(chunks, |chunks|), m, n)
    ensures var M := ScaleRows(Inverse(RowWeights(chunks, m, n, |chunks|)), Concatenated(chunks, |chunks|));
            InBounds(M, m, n) && RowSums(M, m, n)[i] == 1.0
  {
    hide Prod, Apply, Concatenated, RowWeights, OwnWeights, ChunksFit;
    WeightsAddUp(chunks, m, n, |chunks|);
    ConstantsPreserved(Concatenated(chunks, |chunks|), m, n, 1.0, i);
    assert Const(n, 1.0) == Ones(n);
  }

  // ---------------------------------------------------------------- from chunk ranges to masks

  function ToMask(elev: Option<int>): Option<real>
  {
    match elev
    case None => None
    case Some(e) => Some(e as real)
  }

  /** mask is elevmaskI, flattened by rows, of a chunk that covers ocean cells lo..hi-1. */
  ghost predicate MaskOf(mask: seq<Option<real>>, im: IceMap, lo: int, hi: int)
    requires im.Valid()
  {
    && |mask| == Times(im.JmI(), im.ImI())
    && forall i :: 0 <= i < |mask| ==> mask[i] == FlatMask(im, lo, hi, i)
  }

  ghost function FlatMask(im: IceMap, lo: int, hi: int, i: int): Option<real>
    requires im.Valid()
  {
    if im.ImI() > 0 then ToMask(ChunkMask(im, lo, hi, Quot(i, im.ImI()), Rem(i, im.ImI()))) else None
  }

  lemma FlatInGrid(im: IceMap, i: int)
    requires im.Valid() && 0 <= i < Times(im.JmI(), im.ImI())
    ensures im.ImI() > 0 && im.InIceGrid(Quot(i, im.ImI()), Rem(i, im.ImI()))
  {
    hide Times, Quot, Rem;
    TimesPositive(im.im, im.multI);
    TimesFacts(im.JmI(), im.ImI(), 0);
    QuotBound(i, im.ImI(), im.JmI());
    DivMod(i, im.ImI());
  }

  /** Mask k shows ice cell i as s does, and no other mask shows it. */
  ghost predicate InMaskOnly(parts: seq<Sheet>, s: Sheet, k: nat, i: nat)
  {
    && k < |parts| && i < |s.elevmaskI| && i < |parts[k].elevmaskI| && parts[k].elevmaskI[i] == s.elevmaskI[i]
    && forall c :: 0 <= c < |parts| && c != k ==> i < |parts[c].elevmaskI| && parts[c].elevmaskI[i] == None
  }

  /** part is s with the mask of chunk c. */
  ghost predicate PartOfChunk(im: IceMap, size: int, part: Sheet, s: Sheet, c: nat)
    requires im.Valid()
  {
    part.(elevmaskI := s.elevmaskI) == s && MaskOf(part.elevmaskI, im, Start(im, size, c), Start(im, size, c + 1))
  }

  lemma MaskOwner(im: IceMap, size: int, parts: seq<Sheet>, s: Sheet, i: nat) returns (k: nat)
    requires im.Valid() && Start(im, size, |parts|) == im.Cells() && i < |s.elevmaskI|
    requires MaskOf(s.elevmaskI, im, 0, im.Cells())
    requires forall c :: 0 <= c < |parts| ==> PartOfChunk(im, size, parts[c], s, c)
    ensures InMaskOnly(parts, s, k, i)
  {
    hide Times, Quot, Rem, Start, ChunkMask, IceMap.JmI, IceMap.ImI;
    FlatInGrid(im, i);
    k := ChunkMasksPartition(im, size, |parts|, Quot(i, im.ImI()), Rem(i, im.ImI()));
    assert PartOfChunk(im, size, parts[k], s, k);
    forall c | 0 <= c < |parts| && c != k ensures i < |parts[c].elevmaskI| && parts[c].elevmaskI[i] == None {
      assert PartOfChunk(im, size, parts[c], s, c);
      assert parts[c].elevmaskI[i] == FlatMask(im, Start(im, size, c), Start(im, size, c + 1), i);
    }
  }

  /** The masks of the chunks that MakeChunks cuts split the ice of the whole run. */
  lemma ChunksSplitIce(im: IceMap, size: int, parts: seq<Sheet>, s: Sheet)
    requires im.Valid() && Start(im, size, |parts|) == im.Cells()
    requires MaskOf(s.elevmaskI, im, 0, im.Cells())
    requires forall c :: 0 <= c < |parts| ==> PartOfChunk(im, size, parts[c], s, c)
    ensures SplitsIce(parts, s)
  {
    hide Times, Quot, Rem, Start, ChunkMask, FlatMask;
    forall c | 0 <= c < |parts| ensures PartOf(parts[c], s) {
      assert PartOfChunk(im, size, parts[c], s, c);
      forall i | 0 <= i < |s.elevmaskI| && parts[c].elevmaskI[i].Some?
        ensures parts[c].elevmaskI[i] == s.elevmaskI[i]
      {
        var k := MaskOwner(im, size, parts, s, i);
      }
    }
    forall i | 0 <= i < |s.elevmaskI| && s.elevmaskI[i].Some?
      ensures exists c :: 0 <= c < |parts| && OnlyIn(parts, c, i)
    {
      var k := MaskOwner(im, size, parts, s, i);
      assert OnlyIn(parts, k, i);
    }
  }
}
