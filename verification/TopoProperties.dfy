/**
 What AAmvEAm of slib/icebin/modele/topo.cpp guarantees: exact row sums, equal totals of all weights, locality, and
 the elevation class fractions that make_topoA reads out of it.
 */
module TopoProperties {
  import opened Vectors
  import opened Sums
  import opened Sparse
  import opened Indexing
  import opened ExchangeGrid
  import opened RegridMatrices
  import opened RegridProperties
  import opened ElevationMerge
  import opened MergedElevations
  import opened TopoChain
  import Ints
  import HntrIntegrals
  import HntrOverlap

  /** e joins an ocean cell with one of its own elevation classes. */
  ghost predicate LocalEntry(c: Chain, e: Entry)
    requires c.Valid()
  {
    exists ihc: nat :: ihc < c.nhc && e.i == c.EO(e.j, ihc)
  }

  /** The ice model's input: EOpvAOp is positive and local, its columns are dimAOp, and fractions are fractions. */
  ghost predicate IceInput(c: Chain)
    requires c.Valid()
  {
    && Positive(c.EOpvAOp)
    && (forall e :: e in c.EOpvAOp ==> e.j in c.dimAOp && LocalEntry(c, e))
    && (forall o: nat :: o in c.dimAOp ==> exists e :: e in c.EOpvAOp && e.j == o)
    && forall o: nat :: o in c.dimAOp && o < c.NO() ==> c.wAOp[o] > 0.0 && 0.0 <= c.foceanAOp[o] <= 1.0
  }

  /** The unscaled EvA of an ice sheet is such a matrix, if no ice lies below the lowest class. */
  lemma EvAIsLocalMatrix(s: Sheet)
    requires s.Valid() && s.AllInBounds() && NoExtrapolation(s)
    ensures |s.hcdefs| > 0 && LocalMatrix(s.hc, s.nA, |s.hcdefs|, UrProduct(s, E, A, A))
  {
    hide ElevationIndex, UrProduct, NoExtrapolation, Positive, HasShare, Sheet.InBounds;
    var T := UrProduct(s, E, A, A);
    PositiveProduct(s, E, A, A);
    UrProductInBounds(s, E, A, A);
    forall l | 0 <= l < |T| ensures OwnClass(s.hc, s.nA, |s.hcdefs|, T[l]) {
      assert T[l] in T;
      var k := ProductEntry(s, E, A, A, T[l]);
      var h := ShareClass(s, k, T[l].i);
      OwnAtmosphereCell(s, k, T[l].j);
      assert h < |s.hcdefs| && T[l].i == ElevationIndex(s.hc, T[l].j, h);
    }
  }

  /**
   The merged matrix of any local ice sheets, stacked and possibly under the global ice, is what the chain needs, if
   dimAOp holds its columns and the ocean fractions there are fractions.
   */
  lemma MergedIsIceInput(c: Chain, useGlobal: bool, ice: seq<Sheet>, sheets: seq<Triplets>, local: Classes,
                         base: Triplets, global: Classes, ret: Merged)
    requires c.Valid() && MergeInput(useGlobal, c.NO(), c.NO(), sheets, local, base, global)
    requires |ice| == |sheets| && forall k :: 0 <= k < |ice| ==> IsEvA(ice[k], c.NO(), local, sheets[k])
    requires useGlobal ==> LocalMatrix(global.indexingHC, c.NO(), |global.hcdefs|, base)
    requires |global.indexingHC.extent| == 2 && Stacked(useGlobal, true, c.NO(), sheets, local, base, global, ret)
    requires c.EOpvAOp == ret.EOpvAOp && c.hcO == ret.indexingHC && c.nhc == |ret.hcdefs|
    requires ColumnsOfIce(c)
    ensures IceInput(c)
  {
    hide MergeInput, Stacked, LocalMatrix, IsEvA, ColumnsOfIce, Positive, ElevationIndexing;
    forall k | 0 <= k < |sheets|
      ensures ClassesOf(local, c.NO()) && LocalMatrix(local.indexingHC, c.NO(), |local.hcdefs|, sheets[k])
    {
      MergeInputClasses(useGlobal, c.NO(), c.NO(), sheets, local, base, global);
      SheetIsLocal(ice[k], c.NO(), local, sheets[k]);
    }
    MergeInputClasses(useGlobal, c.NO(), c.NO(), sheets, local, base, global);
    StackIsLocal(useGlobal, c.NO(), c.NO(), sheets, local, base, global, ret);
    LocalMatrixIsIceInput(c);
  }

  /** T is the unscaled EvA of an ice sheet on the ocean grid, without ice below the lowest class. */
  ghost predicate IsEvA(s: Sheet, nO: nat, local: Classes, T: Triplets)
  {
    && s.Valid() && s.AllInBounds() && NoExtrapolation(s) && s.nA == nO && s.hc == local.indexingHC
    && s.hcdefs == local.hcdefs && T == UrProduct(s, E, A, A)
  }

  lemma SheetIsLocal(s: Sheet, nO: nat, local: Classes, T: Triplets)
    requires IsEvA(s, nO, local, T) && ClassesOf(local, nO)
    ensures LocalMatrix(local.indexingHC, nO, |local.hcdefs|, T)
  {
    hide LocalMatrix, UrProduct, ElevationIndexing, Sheet.Valid, Sheet.AllInBounds, NoExtrapolation;
    EvAIsLocalMatrix(s);
  }

  /** dimAOp holds the ocean cells with ice, which have weight, and ocean fractions are fractions. */
  ghost predicate ColumnsOfIce(c: Chain)
    requires c.Valid()
  {
    && (forall o: nat :: o in c.dimAOp <==> exists e :: e in c.EOpvAOp && e.j == o)
    && forall o: nat :: o in c.dimAOp && o < c.NO() ==> c.wAOp[o] > 0.0 && 0.0 <= c.foceanAOp[o] <= 1.0
  }

  lemma LocalMatrixIsIceInput(c: Chain)
    requires c.Valid() && LocalMatrix(c.hcO, c.NO(), c.nhc, c.EOpvAOp) && ColumnsOfIce(c)
    ensures IceInput(c)
  {
    hide ElevationIndexing, ElevationIndex, Positive, OwnClass;
    forall e | e in c.EOpvAOp ensures LocalEntry(c, e) {
      var k :| 0 <= k < |c.EOpvAOp| && c.EOpvAOp[k] == e;
      assert OwnClass(c.hcO, c.NO(), c.nhc, e);
      OwnClassIsLocal(c, e);
    }
  }

  lemma OwnClassIsLocal(c: Chain, e: Entry)
    requires c.Valid() && OwnClass(c.hcO, c.NO(), c.nhc, e)
    ensures LocalEntry(c, e)
  {
    hide ElevationIndexing, ElevationIndex;
    IndexingIsValid(c.hcO, c.NO(), c.nhc);
    var h: nat :| h < c.nhc && e.i == ElevationIndex(c.hcO, e.j, h);
    assert h < c.nhc && e.i == c.EO(e.j, h);
  }

  // ---------------------------------------------------------------- columns and rows

  lemma PositiveColumn(T: Triplets, m: nat, n: nat, e: Entry)
    requires InBounds(T, m, n) && Positive(T) && e in T
    ensures e.j < n && ColSums(T, m, n)[e.j] > 0.0
  {
    hide Prod, Apply;
    var k :| 0 <= k < |T| && T[k] == e;
    PositiveApply(Transpose(T), n, m, e.j);
    assert Transpose(T)[k].i == e.j;
  }

  lemma PositiveRow(T: Triplets, m: nat, n: nat, e: Entry)
    requires InBounds(T, m, n) && Positive(T) && e in T
    ensures e.i < m && RowSums(T, m, n)[e.i] > 0.0
  {
    hide Prod, Apply;
    var k :| 0 <= k < |T| && T[k] == e;
    PositiveApply(T, m, n, e.i);
  }

  lemma PositiveEOm(c: Chain)
    requires c.Valid() && IceInput(c)
    ensures Positive(ChainFactors(c).EOmvAOm) && Positive(ChainFactors(c).AAmvAOm)
  {
    hide ElevationIndexing, ElevationIndex, HandOn, EOvEA, KeepColumns, Overlap;
    var dim, S := DimAOm(c), ChainFactors(c).EOmvAOm;
    KeepEntries(c.EOpvAOp, dim);
    forall k | 0 <= k < |S| ensures S[k].v > 0.0 { assert S[k] in c.EOpvAOp; }
    var P, overlap := ChainFactors(c).AAmvAOm, Overlap(c, dim, c.NO());
    OverlapEntries(c, dim, c.NO());
    forall k | 0 <= k < |P| ensures P[k].v > 0.0 { assert overlap[k] in overlap; }
  }

  /** An elevation class of the ocean grid belongs to a single ocean cell. */
  lemma OneOceanCell(c: Chain, d: Entry, e: Entry)
    requires c.Valid() && IceInput(c) && d in c.EOpvAOp && e in c.EOpvAOp && d.i == e.i
    ensures d.j == e.j
  {
    hide ElevationIndexing, ElevationIndex, Positive;
    IndexingOf(c);
    EntryInBounds(c.EOpvAOp, c.NEO(), c.NO(), d);
    EntryInBounds(c.EOpvAOp, c.NEO(), c.NO(), e);
    var h: nat :| h < c.nhc && d.i == c.EO(d.j, h);
    var g: nat :| g < c.nhc && e.i == c.EO(e.j, g);
    ElevationInjective(c.hcO, c.NO(), c.nhc, d.j, h, e.j, g);
  }

  lemma EntryInBounds(T: Triplets, m: nat, n: nat, e: Entry)
    requires InBounds(T, m, n) && e in T
    ensures e.i < m && e.j < n
  {
  }

  lemma EOmEntries(c: Chain)
    requires c.Valid()
    ensures forall e :: e in ChainFactors(c).EOmvAOm <==> e in c.EOpvAOp && e.j in DimAOm(c)
  {
    hide HandOn, EOvEA, KeepColumns, Overlap;
    KeepEntries(c.EOpvAOp, DimAOm(c));
  }

  lemma FactorsAre(c: Chain)
    requires c.Valid()
    ensures var f := ChainFactors(c);
            && f.wAOm == WAOm(c)
            && f.wEOm == HandOn(f.EOmvAOm, c.NEO(), f.wAOm)
            && f.wAAm == HandOn(f.AAmvAOm, c.nA, f.wAOm)
            && f.wEAm == HandOn(Transpose(f.EOmvEAm), c.NEA(), f.wEOm)
  {
    hide HandOn, EOvEA, KeepColumns, Overlap, WAOm;
  }

  // ---------------------------------------------------------------- weights of the ocean grid's classes

  lemma PositiveRecip(a: real)
    requires a > 0.0
    ensures Recip(a) > 0.0 && 1.0 / a > 0.0
  {
  }

  /** Weight of an ocean cell: positive exactly where the ice model has continent. */
  lemma OceanWeight(c: Chain, o: nat)
    requires c.Valid() && IceInput(c) && o in DimAOm(c)
    ensures o < c.NO() && (if c.foceanAOp[o] == 1.0 then WAOm(c)[o] == 0.0 else WAOm(c)[o] > 0.0)
  {
    hide Prod, ElevationIndexing, LocalEntry, WAOm, Positive;
    assert o in c.dimAOp;
    WAOmAt(c, o);
    if c.foceanAOp[o] != 1.0 {
      PositiveRecip(1.0 - c.foceanAOp[o]);
      ProdNonNegative(1.0 / (1.0 - c.foceanAOp[o]), c.wAOp[o]);
    }
  }

  /** Weight of an elevation class of a land cell. */
  lemma ClassWeight(c: Chain, e: Entry)
    requires c.Valid() && IceInput(c) && e in ChainFactors(c).EOmvAOm
    ensures e.i < c.NEO() && e.j < c.NO()
    ensures if c.foceanAOp[e.j] == 1.0 then ChainFactors(c).wEOm[e.i] == 0.0 else ChainFactors(c).wEOm[e.i] > 0.0
  {
    hide Prod, ElevationIndexing, LocalEntry, WAOm, Positive, Apply, ColSums, RowSums, ChainFactors, IceInput, Recip;
    var f := ChainFactors(c);
    var T := f.EOmvAOm;
    FactorsAre(c);
    EOmEntries(c);
    PositiveEOm(c);
    OceanWeight(c, e.j);
    PositiveColumn(T, c.NEO(), c.NO(), e);
    PositiveRow(T, c.NEO(), c.NO(), e);
    var x := Hadamard(Inverse(ColSums(T, c.NEO(), c.NO())), f.wAOm);
    forall d | d in T && d.i == e.i ensures x[d.j] == x[e.j] {
      OneOceanCell(c, d, e);
    }
    ApplyRowConstant(T, x, c.NEO(), e.i, x[e.j]);
    var share := Recip(ColSums(T, c.NEO(), c.NO())[e.j]);
    PositiveRecip(ColSums(T, c.NEO(), c.NO())[e.j]);
    ProdConst(share);
    ProdConst(RowSums(T, c.NEO(), c.NO())[e.i]);
    if c.foceanAOp[e.j] != 1.0 {
      ProdNonNegative(share, f.wAOm[e.j]);
      ProdNonNegative(x[e.j], RowSums(T, c.NEO(), c.NO())[e.i]);
    }
  }

  /** A class has weight only through an entry of EOmvAOm. */
  lemma WeightedClass(c: Chain, i: nat) returns (e: Entry)
    requires c.Valid() && i < c.NEO() && ChainFactors(c).wEOm[i] != 0.0
    ensures e in ChainFactors(c).EOmvAOm && e.i == i
  {
    hide HandOn, ChainFactors;
    FactorsAre(c);
    var T := ChainFactors(c).EOmvAOm;
    NoRowNoWeight(T, c.NEO(), ChainFactors(c).wAOm);
    var k :| 0 <= k < |T| && T[k].i == i;
    e := T[k];
  }

  // ---------------------------------------------------------------- grouping classes by atmosphere cell

  lemma RawIs(c: Chain)
    requires c.Valid()
    ensures var f := ChainFactors(c); var overlap := Overlap(c, DimAOm(c), c.NO());
            && InBounds(overlap, c.NO(), c.nA) && f.EOmvEAm == EOvEA(c, f.wEOm, overlap)
            && f.AAmvAOm == Transpose(overlap)
  {
    hide HandOn, EOvEA, KeepColumns, Overlap, WAOm;
    OverlapInBounds(c, DimAOm(c));
  }

  /** An entry of EOmvEAm carries the weight of its class, which is positive. */
  lemma RawEntry(c: Chain, e: Entry) returns (o: nat, ihc: nat)
    requires c.Valid() && IceInput(c) && e in ChainFactors(c).EOmvEAm
    ensures e.i < c.NEO() && e.v == ChainFactors(c).wEOm[e.i] && e.v > 0.0
    ensures o in DimAOm(c) && o < c.NO() && ihc < c.nhc && e.i == c.EO(o, ihc) && e.j == c.EA(c.parent[o], ihc)
  {
    hide HandOn, ChainFactors, EOvEA, Overlap, ElevationIndexing, ElevationIndex, IceInput, DimAOm;
    RawIs(c);
    var f, overlap := ChainFactors(c), Overlap(c, DimAOm(c), c.NO());
    EOvEAEntries(c, f.wEOm, overlap);
    OverlapEntries(c, DimAOm(c), c.NO());
    var t :| t in overlap && IsRawEntry(c, f.wEOm, t.i, t.j, e);
    o := t.i;
    ihc :| ihc < c.nhc && e.i == c.EO(t.i, ihc) && e.j == c.EA(t.j, ihc);
    var d := WeightedClass(c, e.i);
    ClassWeight(c, d);
  }

  /** Every class with weight is grouped. */
  lemma ClassIsGrouped(c: Chain, d: Entry) returns (e: Entry)
    requires c.Valid() && IceInput(c) && d in ChainFactors(c).EOmvAOm && c.foceanAOp[d.j] != 1.0
    ensures e in ChainFactors(c).EOmvEAm && e.i == d.i
  {
    hide HandOn, ChainFactors, EOvEA, Overlap, ElevationIndexing, ElevationIndex, DimAOm, Positive;
    RawIs(c);
    EOmEntries(c);
    ClassWeight(c, d);
    var f, overlap := ChainFactors(c), Overlap(c, DimAOm(c), c.NO());
    EOvEAEntries(c, f.wEOm, overlap);
    OverlapEntries(c, DimAOm(c), c.NO());
    var t := Entry(d.j, c.parent[d.j], c.area[d.j]);
    assert t in overlap;
    assert LocalEntry(c, d);
    var ihc: nat :| ihc < c.nhc && d.i == c.EO(d.j, ihc);
    assert f.wEOm[c.EO(t.i, ihc)] != 0.0;
    e :| e in EOvEA(c, f.wEOm, overlap) && e.i == c.EO(t.i, ihc);
  }

  lemma GroupedPositive(c: Chain)
    requires c.Valid() && IceInput(c)
    ensures Positive(ChainFactors(c).EOmvEAm)
  {
    hide ChainFactors, IceInput, DimAOm;
    var T := ChainFactors(c).EOmvEAm;
    forall k | 0 <= k < |T| ensures T[k].v > 0.0 {
      var o, ihc := RawEntry(c, T[k]);
    }
  }

  // ---------------------------------------------------------------- row sums

  /** 1 for ocean cells that the ice model has continent in, 0 for the others. */
  function Complete(c: Chain, o: nat): real
    requires o < |c.foceanAOp|
  {
    if c.foceanAOp[o] == 1.0 then 0.0 else 1.0
  }

  /** Row of an ocean class in the row-normalized EOmvEAm: 1 if the class has weight, 0 if it is missing. */
  lemma ClassRow(c: Chain, d: Entry)
    requires c.Valid() && IceInput(c) && d in ChainFactors(c).EOmvAOm
    ensures d.i < c.NEO() && d.j < |c.foceanAOp|
    ensures Apply(Normalized(ChainFactors(c).EOmvEAm, c.NEO(), c.NEA()), Ones(c.NEA()), c.NEO())[d.i]
         == Complete(c, d.j)
  {
    hide Prod, Apply, RowSums, ChainFactors, IceInput, DimAOm, Inverse, Positive, Chain.Valid;
    var T, m, n := ChainFactors(c).EOmvEAm, c.NEO(), c.NEA();
    ClassWeight(c, d);
    FractionSize(c);
    if c.foceanAOp[d.j] != 1.0 {
      var e := ClassIsGrouped(c, d);
      GroupedPositive(c);
      PositiveRow(T, m, n, e);
      ConstantsPreserved(T, m, n, 1.0, d.i);
      assert Const(n, 1.0) == Ones(n);
    } else {
      forall e | e in T && e.i == d.i ensures false {
        var o, ihc := RawEntry(c, e);
      }
      var S := Normalized(T, m, n);
      forall e | e in S && e.i == d.i ensures false {
        var k :| 0 <= k < |S| && S[k] == e;
        assert T[k] in T;
      }
      ApplyRowConstant(S, Ones(n), m, d.i, 0.0);
      ProdConst(RowSums(S, m, n)[d.i]);
    }
  }

  lemma FractionSize(c: Chain)
    requires c.Valid()
    ensures |c.foceanAOp| == c.NO() == |c.parent|
  {
  }

  lemma NormalizedRow(T: Triplets, m: nat, n: nat, x: seq<real>, i: nat, c: real)
    requires InBounds(T, m, n) && |x| == n && i < m && RowSums(T, m, n)[i] != 0.0
    requires forall e :: e in T && e.i == i ==> e.j < n && x[e.j] == c
    ensures Apply(Normalized(T, m, n), x, m)[i] == c
  {
    hide Prod, Apply, RowSums;
    ApplyScaleRows(Inverse(RowSums(T, m, n)), T, x, m, i);
    ApplyRowConstant(T, x, m, i, c);
    UndoWeight(RowSums(T, m, n)[i], c);
  }

  /** From ocean cells to classes and on to the atmosphere's classes. */
  ghost function Inner(c: Chain): (r: seq<real>)
    requires c.Valid()
    ensures |r| == c.NO()
  {
    var f := ChainFactors(c);
    Apply(Normalized(Transpose(f.EOmvAOm), c.NO(), c.NEO()),
          Apply(Normalized(f.EOmvEAm, c.NEO(), c.NEA()), Ones(c.NEA()), c.NEO()), c.NO())
  }

  lemma InnerRow(c: Chain, o: nat)
    requires c.Valid() && IceInput(c) && o in DimAOm(c)
    ensures o < c.NO() && o < |c.foceanAOp| && Inner(c)[o] == Complete(c, o)
  {
    hide Prod, Apply, RowSums, ChainFactors, Inverse, Positive, ElevationIndexing, Normalized, LocalEntry,
      ElevationIndex;
    var f := ChainFactors(c);
    EOmEntries(c);
    FractionSize(c);
    var T := Transpose(f.EOmvAOm);
    var x := Apply(Normalized(f.EOmvEAm, c.NEO(), c.NEA()), Ones(c.NEA()), c.NEO());
    assert o in c.dimAOp;
    var d :| d in c.EOpvAOp && d.j == o;
    PositiveEOm(c);
    PositiveColumn(f.EOmvAOm, c.NEO(), c.NO(), d);
    forall e | e in T && e.i == o ensures e.j < c.NEO() && x[e.j] == Complete(c, o) {
      var k :| 0 <= k < |T| && T[k] == e;
      assert f.EOmvAOm[k] in f.EOmvAOm;
      ClassRow(c, f.EOmvAOm[k]);
    }
    assert RowSums(T, c.NO(), c.NEO())[o] != 0.0 by { ColumnIsTransposedRow(f.EOmvAOm, c.NEO(), c.NO()); }
    NormalizedRow(T, c.NO(), c.NEO(), x, o, Complete(c, o));
  }

  lemma ColumnIsTransposedRow(T: Triplets, m: nat, n: nat)
    requires InBounds(T, m, n)
    ensures InBounds(Transpose(T), n, m) && RowSums(Transpose(T), n, m) == ColSums(T, m, n)
  {
  }

  lemma ChainInBounds(c: Chain, f: Factors, scale: bool)
    requires FactorsFit(c, f)
    ensures InBounds(ChainMatrix(c, f, scale), c.nA, c.NEA())
  {
    var R := Mul(Normalized(Transpose(f.EOmvAOm), c.NO(), c.NEO()), Normalized(f.EOmvEAm, c.NEO(), c.NEA()));
    MulInBounds(Normalized(Transpose(f.EOmvAOm), c.NO(), c.NEO()), Normalized(f.EOmvEAm, c.NEO(), c.NEA()),
                c.NO(), c.NEO(), c.NEA());
    var d := Inverse(RowSums(f.AAmvAOm, c.nA, c.NO()));
    MulInBounds(ScaleRows(if scale then d else Hadamard(f.wAAm, d), f.AAmvAOm), R, c.nA, c.NO(), c.NEA());
  }

  /** Row sums of the scaled chain: the area-weighted share of ocean cells whose chain is complete. */
  lemma ChainRow(c: Chain, a: nat)
    requires c.Valid() && a < c.nA
    ensures var f := ChainFactors(c);
            && InBounds(ChainMatrix(c, f, true), c.nA, c.NEA())
            && RowSums(ChainMatrix(c, f, true), c.nA, c.NEA())[a]
               == Prod(Recip(RowSums(f.AAmvAOm, c.nA, c.NO())[a]), Apply(f.AAmvAOm, Inner(c), c.nA)[a])
  {
    hide Prod, Apply, RowSums, ChainFactors, Recip, Normalized, Mul, Chain.Valid;
    var f := ChainFactors(c);
    ChainInBounds(c, f, true);
    var L, N := Normalized(Transpose(f.EOmvAOm), c.NO(), c.NEO()), Normalized(f.EOmvEAm, c.NEO(), c.NEA());
    var d := Inverse(RowSums(f.AAmvAOm, c.nA, c.NO()));
    ApplyMul(L, N, c.NO(), c.NEO(), Ones(c.NEA()));
    ApplyMul(ScaleRows(d, f.AAmvAOm), Mul(L, N), c.nA, c.NO(), Ones(c.NEA()));
    ApplyScaleRows(d, f.AAmvAOm, Inner(c), c.nA, a);
    SumsAreApplied(ChainMatrix(c, f, true), c.nA, c.NEA());
  }

  lemma SumsAreApplied(T: Triplets, m: nat, n: nat)
    requires InBounds(T, m, n)
    ensures RowSums(T, m, n) == Apply(T, Ones(n), m)
  {
  }

  lemma RatioIsOne(p: real, q: real)
    requires p > 0.0
    ensures Prod(Recip(p), q) == 1.0 <==> q == p
  {
    assert (1.0 / p) * p == 1.0;
    if (1.0 / p) * q == 1.0 { assert (1.0 / p) * (q - p) == 0.0; }
  }

  /**
   A row of the scaled AAmvEAm adds up to 1 exactly if the ice model has some continent in every ocean cell of the
   atmosphere cell that the climate model takes for land.
   */
  lemma ChainRowSums(c: Chain, a: nat)
    requires c.Valid() && IceInput(c) && a < c.nA
    requires exists o :: o in DimAOm(c) && o < c.NO() && c.parent[o] == a
    ensures var f := ChainFactors(c);
            InBounds(ChainMatrix(c, f, true), c.nA, c.NEA())
            && (RowSums(ChainMatrix(c, f, true), c.nA, c.NEA())[a] == 1.0
                <==> forall o: nat :: o in DimAOm(c) && o < c.NO() && o < |c.foceanAOp| && c.parent[o] == a ==>
                      c.foceanAOp[o] < 1.0)
  {
    hide Prod, Apply, RowSums, ChainFactors, Recip, ChainMatrix, Inner, ElevationIndexing, Overlap, DimAOm,
      LocalEntry, Positive;
    var f, dim := ChainFactors(c), DimAOm(c);
    ChainRow(c, a);
    RawIs(c);
    PositiveEOm(c);
    OverlapEntries(c, dim, c.NO());
    var overlap := Overlap(c, dim, c.NO());
    var P, x := f.AAmvAOm, Inner(c);
    forall e | e in P && e.i == a
      ensures e.j in dim && e.j < c.NO() && e.j < |c.foceanAOp| && c.parent[e.j] == a && x[e.j] == Complete(c, e.j)
    {
      var k :| 0 <= k < |P| && P[k] == e;
      assert overlap[k] in overlap;
      InnerRow(c, e.j);
    }
    RowReachesSum(P, x, c.nA, a);
    var o :| o in dim && o < c.NO() && c.parent[o] == a;
    OverlapTransposed(overlap, Entry(o, a, c.area[o]));
    PositiveRow(P, c.nA, c.NO(), Entry(a, o, c.area[o]));
    RatioIsOne(RowSums(P, c.nA, c.NO())[a], Apply(P, x, c.nA)[a]);
    forall o: nat | o in dim && o < c.NO() && c.parent[o] == a ensures Entry(a, o, c.area[o]) in P && FractionOk(c, o) {
      OverlapTransposed(overlap, Entry(o, a, c.area[o]));
      FractionIsOk(c, o);
    }
  }

  ghost predicate FractionOk(c: Chain, o: nat)
  {
    o < |c.foceanAOp| && c.foceanAOp[o] <= 1.0
  }

  lemma FractionIsOk(c: Chain, o: nat)
    requires c.Valid() && IceInput(c) && o in DimAOm(c) && o < c.NO()
    ensures FractionOk(c, o)
  {
  }

  lemma OverlapTransposed(T: Triplets, e: Entry)
    requires e in T
    ensures Entry(e.j, e.i, e.v) in Transpose(T)
  {
    var k :| 0 <= k < |T| && T[k] == e;
    assert Transpose(T)[k] == Entry(e.j, e.i, e.v);
  }

  // ---------------------------------------------------------------- totals

  lemma ShareOut(col: real, w: real)
    requires w == 0.0 || col != 0.0
    ensures Prod(Prod(Recip(col), col), w) == Prod(1.0, w)
  {
    if col != 0.0 { assert (1.0 / col) * col == 1.0; }
  }

  /** Handing weights on to the rows neither makes nor loses any, where every weighted column has entries. */
  lemma HandOnTotal(T: Triplets, m: nat, w: seq<real>)
    requires InBounds(T, m, |w|) && forall j :: 0 <= j < |w| && w[j] != 0.0 ==> ColSums(T, m, |w|)[j] != 0.0
    ensures Sum(HandOn(T, m, w)) == Sum(w)
  {
    hide Prod, Apply, ColSums, Recip, Bilin;
    var n := |w|;
    var col := ColSums(T, m, n);
    var d := Inverse(col);
    SumDot(HandOn(T, m, w));
    DotApply(T, Ones(m), Hadamard(d, w));
    ColumnTotals(T, m, d, w);
    SumDot(w);
    forall j | 0 <= j < n ensures Prod(Hadamard(d, col)[j], w[j]) == Prod(Ones(n)[j], w[j]) {
      ShareOut(col[j], w[j]);
    }
    DotSame(Hadamard(d, col), w, Ones(n), w);
  }

  /** The weights of the ocean cells, their classes, the atmosphere cells and their classes have the same total. */
  lemma ChainTotals(c: Chain)
    requires c.Valid() && IceInput(c)
    ensures var f := ChainFactors(c); Sum(f.wAAm) == Sum(f.wAOm) == Sum(f.wEOm) == Sum(f.wEAm)
  {
    hide Prod, Apply, ColSums, ChainFactors, HandOn, IceInput, DimAOm;
    var f := ChainFactors(c);
    FactorsAre(c);
    FractionSize(c);
    forall o | 0 <= o < c.NO() && f.wAOm[o] != 0.0
      ensures ColSums(f.AAmvAOm, c.nA, c.NO())[o] != 0.0 && ColSums(f.EOmvAOm, c.NEO(), c.NO())[o] != 0.0
    {
      OceanColumns(c, o);
    }
    HandOnTotal(f.AAmvAOm, c.nA, f.wAOm);
    HandOnTotal(f.EOmvAOm, c.NEO(), f.wAOm);
    var T := Transpose(f.EOmvEAm);
    forall e | 0 <= e < c.NEO() && f.wEOm[e] != 0.0 ensures ColSums(T, c.NEA(), c.NEO())[e] != 0.0 {
      var d := WeightedClass(c, e);
      ClassWeight(c, d);
      var r := ClassIsGrouped(c, d);
      GroupedPositive(c);
      OverlapTransposed(f.EOmvEAm, r);
      PositiveTranspose(f.EOmvEAm);
      PositiveColumn(T, c.NEA(), c.NEO(), Entry(r.j, r.i, r.v));
    }
    HandOnTotal(T, c.NEA(), f.wEOm);
  }

  lemma PositiveTranspose(T: Triplets)
    requires Positive(T)
    ensures Positive(Transpose(T))
  {
  }

  lemma OceanColumns(c: Chain, o: nat)
    requires c.Valid() && IceInput(c) && o < c.NO() && ChainFactors(c).wAOm[o] != 0.0
    ensures ColSums(ChainFactors(c).AAmvAOm, c.nA, c.NO())[o] > 0.0
    ensures ColSums(ChainFactors(c).EOmvAOm, c.NEO(), c.NO())[o] > 0.0
  {
    hide Prod, Apply, ColSums, ChainFactors, HandOn, LocalEntry, Overlap, Positive, ElevationIndexing;
    var f := ChainFactors(c);
    FactorsAre(c);
    WAOmAt(c, o);
    assert o in c.dimAOp;
    var d :| d in c.EOpvAOp && d.j == o;
    EOmEntries(c);
    PositiveEOm(c);
    PositiveColumn(f.EOmvAOm, c.NEO(), c.NO(), d);
    RawIs(c);
    OverlapEntries(c, DimAOm(c), c.NO());
    OverlapTransposed(Overlap(c, DimAOm(c), c.NO()), Entry(o, c.parent[o], c.area[o]));
    PositiveColumn(f.AAmvAOm, c.nA, c.NO(), Entry(c.parent[o], o, c.area[o]));
  }

  // ---------------------------------------------------------------- locality

  /** An entry of the product comes from entries of its three factors. */
  lemma ChainEntry(c: Chain, f: Factors, scale: bool, e: Entry) returns (p: Entry, q: Entry, r: Entry)
    requires FactorsFit(c, f) && e in ChainMatrix(c, f, scale)
    ensures p in f.AAmvAOm && q in f.EOmvAOm && r in f.EOmvEAm
    ensures p.i == e.i && p.j == q.j && q.i == r.i && r.j == e.j
  {
    hide Prod, Mul, Inverse, RowSums;
    var d := Inverse(RowSums(f.AAmvAOm, c.nA, c.NO()));
    var S := ScaleRows(if scale then d else Hadamard(f.wAAm, d), f.AAmvAOm);
    var L, N := Normalized(Transpose(f.EOmvAOm), c.NO(), c.NEO()), Normalized(f.EOmvEAm, c.NEO(), c.NEA());
    var s, t := MulWitness(S, Mul(L, N), e);
    var l, n := MulWitness(L, N, t);
    var ks :| 0 <= ks < |S| && S[ks] == s;
    var kl :| 0 <= kl < |L| && L[kl] == l;
    var kn :| 0 <= kn < |N| && N[kn] == n;
    p, q, r := f.AAmvAOm[ks], f.EOmvAOm[kl], f.EOmvEAm[kn];
  }

  /** Every entry of AAmvEAm joins an atmosphere cell with one of its own elevation classes. */
  lemma ChainIsLocal(c: Chain, scale: bool, e: Entry) returns (ihc: nat)
    requires c.Valid() && IceInput(c) && e in ChainMatrix(c, ChainFactors(c), scale)
    ensures e.i < c.nA && ihc < c.nhc && e.j == c.EA(e.i, ihc)
  {
    hide ChainFactors, ChainMatrix, Chain.Valid, ElevationIndexing, ElevationIndex, DimAOm, Overlap, Positive,
      FactorsFit;
    var f := ChainFactors(c);
    var p, q, r := ChainEntry(c, f, scale, e);
    RawIs(c);
    OverlapEntries(c, DimAOm(c), c.NO());
    OverlapEntryOf(c, p);
    EOmEntries(c);
    var o;
    o, ihc := RawEntry(c, r);
    var g: nat :| g < c.nhc && q.i == c.EO(q.j, g);
    IndexingOf(c);
    FractionSize(c);
    ElevationInjective(c.hcO, c.NO(), c.nhc, o, ihc, q.j, g);
    ParentInRange(c, o);
  }

  /** An entry of AAmvAOm is an overlap, turned around. */
  lemma OverlapEntryOf(c: Chain, p: Entry)
    requires c.Valid() && p in ChainFactors(c).AAmvAOm
    ensures Entry(p.j, p.i, p.v) in Overlap(c, DimAOm(c), c.NO())
  {
    hide HandOn, EOvEA, KeepColumns, Overlap, ElevationIndexing, DimAOm, WAOm;
    var overlap := Overlap(c, DimAOm(c), c.NO());
    var k :| 0 <= k < |overlap| && Transpose(overlap)[k] == p;
    assert overlap[k] in overlap;
  }

  lemma ParentInRange(c: Chain, o: nat)
    requires c.Valid() && o < |c.parent|
    ensures c.parent[o] < c.nA
  {
  }

  // ---------------------------------------------------------------- elevation class fractions

  /** An entry of a matrix between atmosphere cells and their own elevation classes. */
  ghost predicate InPlace(hcA: Shape, nA: nat, nhc: nat, e: Entry)
    requires ElevationIndexing(hcA, nA, nhc)
  {
    e.i < nA && exists ihc: nat :: ihc < nhc && e.j == ElevationIndex(hcA, e.i, ihc)
  }

  /** Coefficient of an atmosphere cell and one of its elevation classes. */
  ghost function ClassFraction(hcA: Shape, nA: nat, nhc: nat, M: Triplets, a: nat, ihc: int): real
    requires ElevationIndexing(hcA, nA, nhc)
  {
    if a < nA && 0 <= ihc < nhc then
      ElevationRoundTrip(hcA, nA, nhc, a, ihc);
      At(M, a, ElevationIndex(hcA, a, ihc))
    else 0.0
  }

  /** What the check of make_topoA finds out about an entry. */
  lemma CheckedTuple(hcA: Shape, nA: nat, nhc: nat, e: Entry, u: seq<int>)
    requires ElevationIndexing(hcA, nA, nhc) && e.i < nA && e.j < nA * nhc && hcA.HoldsDigits(u, e.j)
    ensures |u| == 2 && 0 <= u[1] < nhc && (InPlace(hcA, nA, nhc, e) <==> u[0] == e.i)
    ensures u[0] == e.i ==> e.j == ElevationIndex(hcA, e.i, u[1])
  {
    hide ElevationIndexing, ElevationIndex;
    IndexingIsValid(hcA, nA, nhc);
    TupleOf(hcA, nA, nhc, e.j, u);
    if InPlace(hcA, nA, nhc, e) {
      var ihc: nat :| ihc < nhc && e.j == ElevationIndex(hcA, e.i, ihc);
      ElevationInjective(hcA, nA, nhc, e.i, ihc, u[0], u[1]);
    }
  }

  lemma ClassFractionNext(hcA: Shape, nA: nat, nhc: nat, M: Triplets, e: Entry, h: nat, a: nat, ihc: nat)
    requires ElevationIndexing(hcA, nA, nhc) && e.i < nA && h < nhc && e.j == ElevationIndex(hcA, e.i, h)
    requires a < nA && ihc < nhc
    ensures ClassFraction(hcA, nA, nhc, M + [e], a, ihc)
         == ClassFraction(hcA, nA, nhc, M, a, ihc) + if a == e.i && ihc == h then e.v else 0.0
  {
    hide ElevationIndexing, ElevationIndex;
    assert (M + [e])[..|M|] == M;
    IndexingIsValid(hcA, nA, nhc);
    ElevationRoundTrip(hcA, nA, nhc, a, ihc);
    if a == e.i && ElevationIndex(hcA, a, ihc) == e.j {
      ElevationInjective(hcA, nA, nhc, a, ihc, e.i, h);
    }
  }

  /** The loop of make_topoA that reads fhc out of AAmvEAm; ok is false where it reports a non-local matrix. */
  method ReadFractions(hcA: Shape, nA: nat, nhc: nat, M: Triplets) returns (ok: bool, fhc: array2<real>)
    requires ElevationIndexing(hcA, nA, nhc) && InBounds(M, nA, nA * nhc)
    ensures ok <==> forall k :: 0 <= k < |M| ==> InPlace(hcA, nA, nhc, M[k])
    ensures fresh(fhc) && fhc.Length0 == nhc && fhc.Length1 == nA
    ensures ok ==> forall ihc, a :: 0 <= ihc < nhc && 0 <= a < nA ==>
              fhc[ihc, a] == ClassFraction(hcA, nA, nhc, M, a, ihc)
  {
    hide ElevationIndex, InPlace, ClassFraction, IsPermutation, Shape.Value, Shape.Stored;
    fhc := new real[nhc, nA]((_, _) => 0.0);
    var indexing := new Indexer(hcA.base, hcA.extent, hcA.indices);
    NoFractions(hcA, nA, nhc);
    for k := 0 to |M|
      invariant indexing.Valid() && indexing.shape == hcA
      invariant forall l :: 0 <= l < k ==> InPlace(hcA, nA, nhc, M[l])
      invariant forall ihc, a :: 0 <= ihc < nhc && 0 <= a < nA ==>
                                  fhc[ihc, a] == ClassFraction(hcA, nA, nhc, M[..k], a, ihc)
    {
      var e := M[k];
      var iTuple := indexing.IndexToTuple(e.j);
      CheckedTuple(hcA, nA, nhc, e, iTuple);
      if iTuple[0] != e.i {
        return false, fhc;
      }
      var h := iTuple[1];
      assert M[..k + 1] == M[..k] + [e];
      forall ihc, a | 0 <= ihc < nhc && 0 <= a < nA
        ensures ClassFraction(hcA, nA, nhc, M[..k + 1], a, ihc)
             == fhc[ihc, a] + if a == e.i && ihc == h then e.v else 0.0
      {
        ClassFractionNext(hcA, nA, nhc, M[..k], e, h, a, ihc);
      }
      fhc[h, e.i] := fhc[h, e.i] + e.v;
    }
    assert M[..|M|] == M;
    ok := true;
  }

  lemma NoFractions(hcA: Shape, nA: nat, nhc: nat)
    requires ElevationIndexing(hcA, nA, nhc)
    ensures forall a: nat, ihc :: ClassFraction(hcA, nA, nhc, [], a, ihc) == 0.0
  {
  }

  /** For a local matrix, the fractions of an atmosphere cell add up to its row sum. */
  lemma {:induction false} FractionsAddUp(hcA: Shape, nA: nat, nhc: nat, M: Triplets, a: nat)
    requires ElevationIndexing(hcA, nA, nhc) && InBounds(M, nA, nA * nhc) && a < nA
    requires forall k :: 0 <= k < |M| ==> InPlace(hcA, nA, nhc, M[k])
    ensures RangeSum(0, nhc, ihc => ClassFraction(hcA, nA, nhc, M, a, ihc)) == RowSums(M, nA, nA * nhc)[a]
  {
    hide Prod, ElevationIndexing, ElevationIndex, ClassFraction;
    var f := ihc => ClassFraction(hcA, nA, nhc, M, a, ihc);
    if |M| == 0 {
      NoFractions(hcA, nA, nhc);
      ZeroRange(0, nhc);
      RangeSumSame(0, nhc, f, _ => 0.0);
    } else {
      var S, e := M[..|M| - 1], M[|M| - 1];
      assert M == S + [e];
      FractionsAddUp(hcA, nA, nhc, S, a);
      IndexingIsValid(hcA, nA, nhc);
      var h: nat :| h < nhc && e.j == ElevationIndex(hcA, e.i, h);
      var g := ihc => ClassFraction(hcA, nA, nhc, S, a, ihc);
      var d: int -> real := ihc => if a == e.i && ihc == h then e.v else 0.0;
      forall ihc | 0 <= ihc < nhc ensures f(ihc) == g(ihc) + d(ihc) {
        ClassFractionNext(hcA, nA, nhc, S, e, h, a, ihc);
      }
      RangeSumPlus(0, nhc, g, d, f);
      RangeSumPick(0, nhc, d, h);
      ProdConst(e.v);
    }
  }

  lemma ChainInPlace(c: Chain)
    requires c.Valid() && IceInput(c)
    ensures forall k :: 0 <= k < |ChainMatrix(c, ChainFactors(c), true)| ==>
              InPlace(c.hcA, c.nA, c.nhc, ChainMatrix(c, ChainFactors(c), true)[k])
  {
    hide ChainMatrix, ChainFactors, IceInput, ElevationIndexing, ElevationIndex;
    var M := ChainMatrix(c, ChainFactors(c), true);
    forall k | 0 <= k < |M| ensures InPlace(c.hcA, c.nA, c.nhc, M[k]) {
      var ihc := ChainIsLocal(c, true, M[k]);
    }
  }

  /**
   The fractions that make_topoA reads out of the scaled AAmvEAm add up to 1 in every atmosphere cell with land,
   as long as the ice model has some continent in all ocean cells that the climate model takes for land there.
   */
  lemma FractionsAddUpToOne(c: Chain, a: nat)
    requires c.Valid() && IceInput(c) && a < c.nA
    requires exists o :: o in DimAOm(c) && o < c.NO() && c.parent[o] == a
    requires forall o: nat :: o in DimAOm(c) && o < c.NO() && o < |c.foceanAOp| && c.parent[o] == a ==>
               c.foceanAOp[o] < 1.0
    ensures ElevationIndexing(c.hcA, c.nA, c.nhc)
    ensures RangeSum(0, c.nhc, ihc =>
                     ClassFraction(c.hcA, c.nA, c.nhc, ChainMatrix(c, ChainFactors(c), true), a, ihc)) == 1.0
  {
    hide ChainMatrix, ChainFactors, IceInput, ElevationIndexing, ElevationIndex, DimAOm, InPlace, ClassFraction,
      RowSums;
    IndexingOf(c);
    ChainInBounds(c, ChainFactors(c), true);
    ChainInPlace(c);
    FractionsAddUp(c.hcA, c.nA, c.nhc, ChainMatrix(c, ChainFactors(c), true), a);
    ChainRowSums(c, a);
  }

  // ---------------------------------------------------------------- the unscaled matrix, and where overlaps come from

  /** The unscaled matrix is the scaled one times the weights of the atmosphere cells. */
  lemma UnscaledIsWeighted(c: Chain, x: seq<real>, a: nat)
    requires c.Valid() && a < c.nA && |x| == c.NEA()
    ensures var f := ChainFactors(c);
            && InBounds(ChainMatrix(c, f, true), c.nA, |x|) && InBounds(ChainMatrix(c, f, false), c.nA, |x|)
            && Apply(ChainMatrix(c, f, false), x, c.nA)[a]
               == Prod(f.wAAm[a], Apply(ChainMatrix(c, f, true), x, c.nA)[a])
  {
    hide Prod, Apply, RowSums, ChainFactors, Recip, Normalized, Mul, Chain.Valid, Inverse;
    var f := ChainFactors(c);
    ChainInBounds(c, f, true);
    ChainInBounds(c, f, false);
    var L, N := Normalized(Transpose(f.EOmvAOm), c.NO(), c.NEO()), Normalized(f.EOmvEAm, c.NEO(), c.NEA());
    MulInBounds(L, N, c.NO(), c.NEO(), c.NEA());
    var d := Inverse(RowSums(f.AAmvAOm, c.nA, c.NO()));
    var v := Apply(Mul(L, N), x, c.NO());
    ApplyMul(ScaleRows(d, f.AAmvAOm), Mul(L, N), c.nA, c.NO(), x);
    ApplyMul(ScaleRows(Hadamard(f.wAAm, d), f.AAmvAOm), Mul(L, N), c.nA, c.NO(), x);
    ApplyScaleRows(d, f.AAmvAOm, v, c.nA, a);
    ApplyScaleRows(Hadamard(f.wAAm, d), f.AAmvAOm, v, c.nA, a);
    ProdAssoc(f.wAAm[a], d[a], Apply(f.AAmvAOm, v, c.nA)[a]);
  }

  /** c has the parents and areas of nested grids; rowArea holds the area of an ocean cell by row. */
  ghost predicate FromGrids(c: Chain, cuts: HntrIntegrals.Cuts, rowArea: seq<real>)
  {
    && HntrOverlap.Nested(cuts) && |rowArea| == cuts.b.jm + 1 && c.NO() == Ints.Times(cuts.b.im, cuts.b.jm)
    && cuts.b.im >= 1 && |c.area| == c.NO()
    && forall o :: 0 <= o < c.NO() ==>
         && c.parent[o] == HntrOverlap.Parent(cuts.b.im, o)
         && 0 <= Ints.Quot(o, cuts.b.im) + 1 < |rowArea| && c.area[o] == rowArea[Ints.Quot(o, cuts.b.im) + 1]
  }

  lemma {:induction false} OverlapIsNested(c: Chain, cuts: HntrIntegrals.Cuts, rowArea: seq<real>, dim: seq<nat>,
                                           n: nat)
    requires c.Valid() && FromGrids(c, cuts, rowArea) && n <= c.NO()
    ensures Overlap(c, dim, n) == HntrOverlap.NestedUpTo(cuts.b.im, rowArea, o => o >= 0 && o in dim, n)
  {
    hide Ints.Quot, Ints.Times, HntrOverlap.Parent, ElevationIndexing, HntrOverlap.Nested;
    if n > 0 { OverlapIsNested(c, cuts, rowArea, dim, n - 1); }
  }

  /** The overlaps of the chain are those that Hntr::overlap finds for 2:1 nested grids, clipped to the land cells. */
  lemma HntrGivesOverlap(c: Chain, cuts: HntrIntegrals.Cuts, rowArea: seq<real>)
    requires c.Valid() && FromGrids(c, cuts, rowArea)
    ensures Overlap(c, DimAOm(c), c.NO())
         == HntrOverlap.OverlapUpTo(cuts, rowArea, o => o >= 0 && o in DimAOm(c), c.NO())
  {
    hide Ints.Quot, Ints.Times, HntrOverlap.Parent, ElevationIndexing, HntrOverlap.OverlapUpTo, HntrOverlap.NestedUpTo,
      Overlap, DimAOm;
    var dim := DimAOm(c);
    var includeB: int -> bool := o => o >= 0 && o in dim;
    HntrOverlap.NestedOverlap(cuts, rowArea, includeB, c.NO());
    OverlapIsNested(c, cuts, rowArea, dim, c.NO());
  }

  // ---------------------------------------------------------------- an instance

  /** One ocean cell, half of it continent to the ice model and all of it land to the climate model. */
  ghost function OneCellChain(): Chain
  {
    var hc := Shape([0, 0], [1, 1], [1, 0]);
    Chain([0], [1.0], 1, 1, hc, hc, [0.5], [0.0], [1.0], [0], [Entry(0, 0, 1.0)])
  }

  /** The conditions of the theorems can be met, and the single row then adds up to 1. */
  lemma OneCellIsComplete()
    ensures var c := OneCellChain();
            && c.Valid() && IceInput(c) && c.Rounded()
            && InBounds(ChainMatrix(c, ChainFactors(c), true), 1, 1)
            && RowSums(ChainMatrix(c, ChainFactors(c), true), 1, 1)[0] == 1.0
  {
    hide ChainMatrix, ChainFactors, RowSums, Shape.Value;
    var c := OneCellChain();
    OneCellValid();
    ChainRowSums(c, 0);
  }

  lemma OneCellValid()
    ensures OneCellChain().Valid() && IceInput(OneCellChain()) && OneCellChain().Rounded()
    ensures 0 in DimAOm(OneCellChain())
  {
    hide ElevationIndex, Shape.Value, Shape.Block;
    var c := OneCellChain();
    assert 0 in c.hcO.indices && 1 in c.hcO.indices && c.dimAOp[0] == 0;
    OneCellIndex(c.hcO);
    var e := Entry(0, 0, 1.0);
    assert c.EOpvAOp[0] == e && e in c.EOpvAOp;
    assert LocalEntry(c, e) by { assert 0 < c.nhc && e.i == c.EO(e.j, 0); }
  }

  lemma OneCellIndex(hc: Shape)
    requires ElevationIndexing(hc, 1, 1) && hc.indices == [1, 0]
    ensures ElevationIndex(hc, 0, 0) == 0
  {
    hide Shape.Value, IsPermutation;
    ElevationRoundTrip(hc, 1, 1, 0, 0);
  }
}
