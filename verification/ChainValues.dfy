/**
 The values in AAmvEAm and in its weights (slib/icebin/modele/topo.cpp), told by the ocean cells: their areas, and the
 shares that their elevation classes have in the ice model's matrix EOpvAOp.
 */
module ChainValues {
  import opened Vectors
  import opened Sums
  import opened Sparse
  import opened Indexing
  import opened ExchangeGrid
  import opened RegridMatrices
  import opened RegridProperties
  import opened TopoChain
  import opened TopoProperties

  // ---------------------------------------------------------------- rows and columns

  /** A row only looks at the columns that it holds entries in. */
  lemma {:induction false} ApplySameRow(T: Triplets, x: seq<real>, y: seq<real>, m: nat, i: nat)
    requires InBounds(T, m, |x|) && |y| == |x| && i < m
    requires forall k :: 0 <= k < |T| && T[k].i == i ==> x[T[k].j] == y[T[k].j]
    ensures Apply(T, x, m)[i] == Apply(T, y, m)[i]
  {
    hide Prod;
    if |T| > 0 {
      ApplySameRow(T[..|T| - 1], x, y, m, i);
    }
  }

  lemma AtTransposed(T: Triplets, m: nat, n: nat, i: nat, j: nat)
    requires InBounds(T, m, n) && i < m && j < n
    ensures InBounds(Transpose(T), n, m) && Apply(Transpose(T), Unit(m, i), n)[j] == At(T, i, j)
  {
    hide Prod, Bilin, At, Apply;
    ApplyElement(Transpose(T), Unit(m, i), n, j);
    BilinTranspose(T, Unit(m, i), Unit(n, j));
    BilinUnits(T, m, n, i, j);
  }

  /** Columns that stay are unchanged. */
  lemma {:induction false} KeptColumn(T: Triplets, dim: seq<nat>, y: seq<real>, n: nat, o: nat)
    requires InBounds(T, |y|, n) && o < n && o in dim
    ensures InBounds(KeepColumns(T, dim), |y|, n)
    ensures Apply(Transpose(KeepColumns(T, dim)), y, n)[o] == Apply(Transpose(T), y, n)[o]
  {
    hide Prod;
    KeepInBounds(T, dim, |y|, n);
    if |T| > 0 {
      var S, t := T[..|T| - 1], T[|T| - 1];
      var K := KeepColumns(S, dim);
      KeptColumn(S, dim, y, n, o);
      assert Transpose(T)[..|T| - 1] == Transpose(S);
      if t.j in dim {
        assert KeepColumns(T, dim) == K + [t];
        assert Transpose(K + [t])[..|K|] == Transpose(K);
      } else {
        assert KeepColumns(T, dim) == K;
      }
    }
  }

  // ---------------------------------------------------------------- shares of the classes

  /** Total of the column of ocean cell o in EOpvAOp. */
  ghost function IceTotal(c: Chain, o: nat): real
    requires c.Valid() && o < c.NO()
  {
    ColSums(c.EOpvAOp, c.NEO(), c.NO())[o]
  }

  /** The share that class ihc has in the ice of ocean cell o, as the ice model sees it. */
  ghost function IceShare(c: Chain, o: nat, ihc: nat): real
    requires c.Valid() && o < c.NO() && ihc < c.nhc
  {
    ElevationRoundTrip(c.hcO, c.NO(), c.nhc, o, ihc);
    if IceTotal(c, o) == 0.0 then 0.0 else At(c.EOpvAOp, c.EO(o, ihc), o) / IceTotal(c, o)
  }

  lemma ShareIs(t: real, v: real)
    ensures Prod(Recip(t), v) == if t == 0.0 then 0.0 else v / t
  {
  }

  /** The column of a land cell in EOmvAOm is the one that the ice model gave. */
  lemma LandColumn(c: Chain, o: nat, ihc: nat)
    requires c.Valid() && o in DimAOm(c) && o < c.NO() && ihc < c.nhc
    ensures var T := ChainFactors(c).EOmvAOm;
      && InBounds(T, c.NEO(), c.NO()) && ColSums(T, c.NEO(), c.NO())[o] == IceTotal(c, o)
      && 0 <= c.EO(o, ihc) < c.NEO() && At(T, c.EO(o, ihc), o) == At(c.EOpvAOp, c.EO(o, ihc), o)
      && Prod(Recip(ColSums(T, c.NEO(), c.NO())[o]), At(T, c.EO(o, ihc), o)) == IceShare(c, o, ihc)
  {
    hide Prod, Recip, Apply, At, HandOn, EOvEA, KeepColumns, Overlap, ElevationIndex, DimAOm, ElevationIndexing;
    var m, n := c.NEO(), c.NO();
    IndexingOf(c);
    SizesOf(c);
    ElevationRoundTrip(c.hcO, n, c.nhc, o, ihc);
    var e: nat := c.EO(o, ihc);
    EOmIs(c);
    KeptColumn(c.EOpvAOp, DimAOm(c), Ones(m), n, o);
    KeptColumn(c.EOpvAOp, DimAOm(c), Unit(m, e), n, o);
    AtTransposed(ChainFactors(c).EOmvAOm, m, n, e, o);
    AtTransposed(c.EOpvAOp, m, n, e, o);
    ShareIs(IceTotal(c, o), At(c.EOpvAOp, e, o));
  }

  lemma EOmIs(c: Chain)
    requires c.Valid()
    ensures ChainFactors(c).EOmvAOm == KeepColumns(c.EOpvAOp, DimAOm(c))
  {
    hide HandOn, EOvEA, KeepColumns, Overlap;
  }

  // ---------------------------------------------------------------- from classes to classes

  /** A field on the atmosphere's classes, brought to the ocean's classes and on to the ocean cells. */
  ghost function InnerOf(c: Chain, u: seq<real>): (r: seq<real>)
    requires c.Valid() && |u| == c.NEA()
    ensures |r| == c.NO()
  {
    var f := ChainFactors(c);
    Apply(Normalized(Transpose(f.EOmvAOm), c.NO(), c.NEO()),
          Apply(Normalized(f.EOmvEAm, c.NEO(), c.NEA()), u, c.NEO()), c.NO())
  }

  /** Row of class h of a land cell: it leads to class h of the atmosphere cell above, if the class has weight. */
  lemma ClassLeads(c: Chain, d: Entry, h: nat, u: seq<real>)
    requires c.Valid() && IceInput(c) && d in ChainFactors(c).EOmvAOm && |u| == c.NEA()
    requires d.j < c.NO() && h < c.nhc && d.i == c.EO(d.j, h)
    ensures d.i < c.NEO() && 0 <= c.EA(c.parent[d.j], h) < c.NEA()
    ensures Apply(Normalized(ChainFactors(c).EOmvEAm, c.NEO(), c.NEA()), u, c.NEO())[d.i]
         == if c.foceanAOp[d.j] == 1.0 then 0.0 else u[c.EA(c.parent[d.j], h)]
  {
    hide Prod, Apply, RowSums, ChainFactors, IceInput, DimAOm, Inverse, Positive, ElevationIndexing, ElevationIndex,
      Normalized;
    var T, m, n := ChainFactors(c).EOmvEAm, c.NEO(), c.NEA();
    ClassWeight(c, d);
    IndexingOf(c);
    ElevationRoundTrip(c.hcA, c.nA, c.nhc, c.parent[d.j], h);
    if c.foceanAOp[d.j] != 1.0 {
      var g := ClassIsGrouped(c, d);
      GroupedPositive(c);
      PositiveRow(T, m, n, g);
      forall e | e in T && e.i == d.i ensures e.j < n && u[e.j] == u[c.EA(c.parent[d.j], h)] {
        var o, ihc := RawEntry(c, e);
        ElevationInjective(c.hcO, c.NO(), c.nhc, o, ihc, d.j, h);
      }
      NormalizedRow(T, m, n, u, d.i, u[c.EA(c.parent[d.j], h)]);
    } else {
      forall e | e in T && e.i == d.i ensures false {
        var o, ihc := RawEntry(c, e);
      }
      EmptyRow(T, m, n, u, d.i);
    }
  }

  lemma EmptyRow(T: Triplets, m: nat, n: nat, u: seq<real>, i: nat)
    requires InBounds(T, m, n) && |u| == n && i < m && forall e :: e in T ==> e.i != i
    ensures Apply(Normalized(T, m, n), u, m)[i] == 0.0
  {
    hide Prod, Apply, RowSums, Inverse;
    ApplyScaleRows(Inverse(RowSums(T, m, n)), T, u, m, i);
    ApplyRowConstant(T, u, m, i, 0.0);
    ProdConst(RowSums(T, m, n)[i]);
    ProdConst(Inverse(RowSums(T, m, n))[i]);
  }

  /** What an ocean cell gets of the unit field of class ihc of its atmosphere cell: the share of that class. */
  lemma InnerValue(c: Chain, o: nat, ihc: nat)
    requires c.Valid() && IceInput(c) && o in DimAOm(c) && o < c.NO() && ihc < c.nhc
    ensures 0 <= c.EA(c.parent[o], ihc) < c.NEA()
    ensures InnerOf(c, Unit(c.NEA(), c.EA(c.parent[o], ihc)))[o]
         == if c.foceanAOp[o] == 1.0 then 0.0 else IceShare(c, o, ihc)
  {
    hide Prod, Recip, Apply, RowSums, ColSums, ChainFactors, IceInput, DimAOm, Inverse, Positive, ElevationIndexing,
      ElevationIndex, Normalized, IceShare, At;
    IndexingOf(c);
    ElevationRoundTrip(c.hcA, c.nA, c.nhc, c.parent[o], ihc);
    ElevationRoundTrip(c.hcO, c.NO(), c.nhc, o, ihc);
    var f, u := ChainFactors(c), Unit(c.NEA(), c.EA(c.parent[o], ihc));
    var T, m, n := Transpose(f.EOmvAOm), c.NO(), c.NEO();
    var z := Apply(Normalized(f.EOmvEAm, c.NEO(), c.NEA()), u, c.NEO());
    LandColumn(c, o, ihc);
    AtTransposed(f.EOmvAOm, c.NEO(), c.NO(), c.EO(o, ihc), o);
    NormalizedAt(T, m, n, z, o);
    ColumnIsTransposedRow(f.EOmvAOm, c.NEO(), c.NO());
    var y := if c.foceanAOp[o] == 1.0 then Const(n, 0.0) else Unit(n, c.EO(o, ihc));
    forall k | 0 <= k < |T| && T[k].i == o ensures T[k].j < n && z[T[k].j] == y[T[k].j] {
      ClassOfColumn(c, k, o, ihc, u);
    }
    ApplySameRow(T, z, y, m, o);
    if c.foceanAOp[o] == 1.0 {
      ApplyRowConstant(T, y, m, o, 0.0);
      ProdConst(RowSums(T, m, n)[o]);
      ProdConst(Recip(RowSums(T, m, n)[o]));
    }
  }

  lemma NormalizedAt(T: Triplets, m: nat, n: nat, z: seq<real>, i: nat)
    requires InBounds(T, m, n) && |z| == n && i < m
    ensures Apply(Normalized(T, m, n), z, m)[i] == Prod(Recip(RowSums(T, m, n)[i]), Apply(T, z, m)[i])
  {
    hide Prod, Recip, Apply, RowSums;
    ApplyScaleRows(Inverse(RowSums(T, m, n)), T, z, m, i);
  }

  /** Entry k of the column of ocean cell o. */
  lemma ClassOfColumn(c: Chain, k: nat, o: nat, ihc: nat, u: seq<real>)
    requires c.Valid() && IceInput(c) && o < c.NO() && ihc < c.nhc && |u| == c.NEA()
    requires k < |ChainFactors(c).EOmvAOm| && ChainFactors(c).EOmvAOm[k].j == o
    requires forall e :: 0 <= e < |u| ==> u[e] == if e == c.EA(c.parent[o], ihc) then 1.0 else 0.0
    ensures var e := ChainFactors(c).EOmvAOm[k].i;
      && e < c.NEO()
      && Apply(Normalized(ChainFactors(c).EOmvEAm, c.NEO(), c.NEA()), u, c.NEO())[e]
         == if c.foceanAOp[o] != 1.0 && e == c.EO(o, ihc) then 1.0 else 0.0
  {
    hide Prod, Apply, RowSums, ChainFactors, DimAOm, Positive, ElevationIndexing, ElevationIndex, Normalized;
    var d := ChainFactors(c).EOmvAOm[k];
    assert d in ChainFactors(c).EOmvAOm;
    EOmEntries(c);
    assert LocalEntry(c, d);
    var h: nat :| h < c.nhc && d.i == c.EO(d.j, h);
    ClassLeads(c, d, h, u);
    IndexingOf(c);
    ElevationRoundTrip(c.hcA, c.nA, c.nhc, c.parent[o], ihc);
    if c.EA(c.parent[o], h) == c.EA(c.parent[o], ihc) {
      ElevationInjective(c.hcA, c.nA, c.nhc, c.parent[o], h, c.parent[o], ihc);
    }
    ElevationRoundTrip(c.hcO, c.NO(), c.nhc, o, ihc);
    if c.EO(o, h) == c.EO(o, ihc) {
      ElevationInjective(c.hcO, c.NO(), c.nhc, o, h, o, ihc);
    }
  }

  // ---------------------------------------------------------------- from ocean cells to atmosphere cells

  /** Ocean cell o is land to the climate model and lies in atmosphere cell a. */
  ghost predicate LandIn(c: Chain, a: nat, o: int)
    requires c.Valid()
  {
    0 <= o < c.NO() && o in DimAOm(c) && c.parent[o] == a
  }

  ghost function LandTerm(c: Chain, x: seq<real>, a: nat): int -> real
    requires c.Valid() && |x| == c.NO()
  {
    o => if LandIn(c, a, o) then Prod(c.area[o], x[o]) else 0.0
  }

  lemma {:induction false} OverlapSum(c: Chain, x: seq<real>, a: nat, n: nat)
    requires c.Valid() && |x| == c.NO() && a < c.nA && n <= c.NO()
    ensures InBounds(Transpose(Overlap(c, DimAOm(c), n)), c.nA, c.NO())
    ensures Apply(Transpose(Overlap(c, DimAOm(c), n)), x, c.nA)[a] == RangeSum(0, n, LandTerm(c, x, a))
  {
    hide Prod, ElevationIndexing, DimAOm;
    PartInBounds(c, DimAOm(c), n);
    if n > 0 {
      OverlapSum(c, x, a, n - 1);
      var S := Overlap(c, DimAOm(c), n - 1);
      if n - 1 in DimAOm(c) {
        var e := Entry(n - 1, c.parent[n - 1], c.area[n - 1]);
        assert Overlap(c, DimAOm(c), n) == S + [e];
        assert Transpose(S + [e]) == Transpose(S) + [Entry(e.j, e.i, e.v)];
        ApplyAppend(Transpose(S), Entry(e.j, e.i, e.v), x, c.nA);
      } else {
        assert Overlap(c, DimAOm(c), n) == S;
      }
    }
  }

  lemma PartInBounds(c: Chain, dim: seq<nat>, n: nat)
    requires c.Valid() && n <= c.NO()
    ensures InBounds(Overlap(c, dim, n), c.NO(), c.nA)
  {
    hide ElevationIndexing, Overlap;
    OverlapEntries(c, dim, n);
    var T := Overlap(c, dim, n);
    forall k | 0 <= k < |T| ensures T[k].i < c.NO() && T[k].j < c.nA {
      assert T[k] in T;
    }
  }

  /** AAmvAOm x: every atmosphere cell collects its land cells, by area. */
  lemma CollectLand(c: Chain, x: seq<real>, a: nat)
    requires c.Valid() && |x| == c.NO() && a < c.nA
    ensures InBounds(ChainFactors(c).AAmvAOm, c.nA, c.NO())
    ensures Apply(ChainFactors(c).AAmvAOm, x, c.nA)[a] == RangeSum(0, c.NO(), LandTerm(c, x, a))
  {
    hide Apply, ChainFactors, DimAOm, LandTerm, Overlap, ElevationIndexing;
    RawIs(c);
    OverlapSum(c, x, a, c.NO());
  }

  // ---------------------------------------------------------------- the matrix

  ghost function LandAreaTerm(c: Chain, a: nat): int -> real
    requires c.Valid()
  {
    o => if LandIn(c, a, o) then c.area[o] else 0.0
  }

  /** The area of all land cells of an atmosphere cell. */
  ghost function LandArea(c: Chain, a: nat): real
    requires c.Valid()
  {
    RangeSum(0, c.NO(), LandAreaTerm(c, a))
  }

  /** The area of a land cell that class ihc takes up; cells that are all ocean to the ice model have no classes. */
  ghost function ClassAreaTerm(c: Chain, a: nat, ihc: nat): int -> real
    requires c.Valid() && ihc < c.nhc
  {
    o => if LandIn(c, a, o) && c.foceanAOp[o] != 1.0 then Prod(c.area[o], IceShare(c, o, ihc)) else 0.0
  }

  lemma LandAreaIs(c: Chain, a: nat)
    requires c.Valid() && a < c.nA
    ensures InBounds(ChainFactors(c).AAmvAOm, c.nA, c.NO())
    ensures RowSums(ChainFactors(c).AAmvAOm, c.nA, c.NO())[a] == LandArea(c, a)
  {
    hide Prod, Apply, ChainFactors, LandIn, ElevationIndexing;
    CollectLand(c, Ones(c.NO()), a);
    forall o | 0 <= o < c.NO() ensures LandTerm(c, Ones(c.NO()), a)(o) == LandAreaTerm(c, a)(o) {
      AreaSize(c);
      ProdConst(c.area[o]);
    }
    RangeSumSame(0, c.NO(), LandTerm(c, Ones(c.NO()), a), LandAreaTerm(c, a));
  }

  lemma AreaSize(c: Chain)
    requires c.Valid()
    ensures |c.area| == c.NO() == |c.foceanAOp|
  {
  }

  /** Row a of the chain, applied to any field on the atmosphere's classes. */
  lemma ChainApplied(c: Chain, u: seq<real>, a: nat)
    requires c.Valid() && |u| == c.NEA() && a < c.nA
    ensures var M := ChainMatrix(c, ChainFactors(c), true);
      && InBounds(M, c.nA, c.NEA())
      && Apply(M, u, c.nA)[a] == Prod(Recip(LandArea(c, a)), RangeSum(0, c.NO(), LandTerm(c, InnerOf(c, u), a)))
  {
    hide Prod, Apply, RowSums, ChainFactors, Recip, Normalized, Mul, Chain.Valid, LandTerm, LandArea;
    var f := ChainFactors(c);
    ChainInBounds(c, f, true);
    var L, N := Normalized(Transpose(f.EOmvAOm), c.NO(), c.NEO()), Normalized(f.EOmvEAm, c.NEO(), c.NEA());
    var d := Inverse(RowSums(f.AAmvAOm, c.nA, c.NO()));
    ApplyMul(L, N, c.NO(), c.NEO(), u);
    ApplyMul(ScaleRows(d, f.AAmvAOm), Mul(L, N), c.nA, c.NO(), u);
    ApplyScaleRows(d, f.AAmvAOm, InnerOf(c, u), c.nA, a);
    CollectLand(c, InnerOf(c, u), a);
    LandAreaIs(c, a);
  }

  lemma ClassTerms(c: Chain, a: nat, ihc: nat, o: nat)
    requires c.Valid() && IceInput(c) && a < c.nA && ihc < c.nhc && o < c.NO()
    ensures 0 <= c.EA(a, ihc) < c.NEA()
    ensures LandTerm(c, InnerOf(c, Unit(c.NEA(), c.EA(a, ihc))), a)(o) == ClassAreaTerm(c, a, ihc)(o)
  {
    hide Prod, IceInput, DimAOm, InnerOf, IceShare, ElevationIndexing, ElevationIndex;
    IndexingOf(c);
    ElevationRoundTrip(c.hcA, c.nA, c.nhc, a, ihc);
    if LandIn(c, a, o) {
      InnerValue(c, o, ihc);
      ProdConst(c.area[o]);
    }
  }

  /**
   The coefficient of the scaled AAmvEAm for an atmosphere cell and one of its own classes: the area that the class
   takes up in the land cells of the atmosphere cell, over the area of all its land cells.
   */
  lemma ChainValue(c: Chain, a: nat, ihc: nat)
    requires c.Valid() && IceInput(c) && a < c.nA && ihc < c.nhc
    ensures 0 <= c.EA(a, ihc) < c.NEA()
    ensures At(ChainMatrix(c, ChainFactors(c), true), a, c.EA(a, ihc))
         == Prod(Recip(LandArea(c, a)), RangeSum(0, c.NO(), ClassAreaTerm(c, a, ihc)))
  {
    hide Prod, Apply, Recip, Bilin, At, ChainFactors, ChainMatrix, IceInput, LandTerm, ClassAreaTerm, LandArea,
      ElevationIndexing, ElevationIndex;
    IndexingOf(c);
    ElevationRoundTrip(c.hcA, c.nA, c.nhc, a, ihc);
    var M, j := ChainMatrix(c, ChainFactors(c), true), c.EA(a, ihc);
    var u := Unit(c.NEA(), j);
    ChainApplied(c, u, a);
    ApplyElement(M, u, c.nA, a);
    BilinUnits(M, c.nA, c.NEA(), a, j);
    forall o | 0 <= o < c.NO() ensures LandTerm(c, InnerOf(c, u), a)(o) == ClassAreaTerm(c, a, ihc)(o) {
      ClassTerms(c, a, ihc, o);
    }
    RangeSumSame(0, c.NO(), LandTerm(c, InnerOf(c, u), a), ClassAreaTerm(c, a, ihc));
  }

  /** So the class fractions that make_topoA reads are area-weighted shares. */
  lemma FractionValue(c: Chain, a: nat, ihc: nat)
    requires c.Valid() && IceInput(c) && a < c.nA && ihc < c.nhc
    ensures ClassFraction(c.hcA, c.nA, c.nhc, ChainMatrix(c, ChainFactors(c), true), a, ihc)
         == Prod(Recip(LandArea(c, a)), RangeSum(0, c.NO(), ClassAreaTerm(c, a, ihc)))
  {
    hide Prod, Recip, At, ChainFactors, ChainMatrix, IceInput, ClassAreaTerm, LandArea, ElevationIndexing,
      ElevationIndex;
    ChainValue(c, a, ihc);
    IndexingOf(c);
  }

  /** Where an atmosphere cell has land, its land area is positive, so that nothing is divided by 0. */
  lemma LandAreaPositive(c: Chain, a: nat, o: nat)
    requires c.Valid() && LandIn(c, a, o)
    ensures LandArea(c, a) > 0.0
  {
    hide DimAOm, LandIn, ElevationIndexing;
    forall l | 0 <= l < c.NO() ensures LandAreaTerm(c, a)(l) >= 0.0 {
    }
    LandInCell(c, a, o);
    assert LandAreaTerm(c, a)(o) > 0.0;
    RangeSumNonNegative(0, c.NO(), LandAreaTerm(c, a));
  }

  lemma LandInCell(c: Chain, a: nat, o: int)
    requires c.Valid() && LandIn(c, a, o)
    ensures 0 <= o < c.NO()
  {
  }

  // ---------------------------------------------------------------- the weights

  /** wAAm: the weights of an atmosphere cell's land cells, summed. */
  ghost function WeightTerm(c: Chain, a: nat): int -> real
    requires c.Valid()
  {
    o => if LandIn(c, a, o) then WAOm(c)[o] else 0.0
  }

  lemma TurnedSums(T: Triplets, m: nat, n: nat)
    requires InBounds(T, m, n)
    ensures InBounds(Transpose(T), n, m) && ColSums(Transpose(T), n, m) == RowSums(T, m, n)
  {
    hide Apply;
    assert Transpose(Transpose(T)) == T;
  }

  /** Column o of AAmvAOm holds the area of ocean cell o, once. */
  lemma OverlapColumn(c: Chain, o: nat)
    requires c.Valid() && o in DimAOm(c) && o < c.NO()
    ensures o < |c.area| && InBounds(ChainFactors(c).AAmvAOm, c.nA, c.NO())
    ensures ColSums(ChainFactors(c).AAmvAOm, c.nA, c.NO())[o] == c.area[o]
  {
    hide *;
    var overlap := Overlap(c, DimAOm(c), c.NO());
    RawIs(c);
    AreaSize(c);
    TurnedSums(overlap, c.NO(), c.nA);
    OverlapRow(c, Ones(c.nA), o, c.NO());
    SumsAreApplied(overlap, c.NO(), c.nA);
    ProdConst(c.area[o]);
    FractionSize(c);
    ParentInRange(c, o);
  }

  lemma {:induction false} OverlapRow(c: Chain, x: seq<real>, o: nat, n: nat)
    requires c.Valid() && |x| == c.nA && o < c.NO() && n <= c.NO()
    ensures InBounds(Overlap(c, DimAOm(c), n), c.NO(), c.nA)
    ensures Apply(Overlap(c, DimAOm(c), n), x, c.NO())[o]
         == if o < n && o in DimAOm(c) then Prod(c.area[o], x[c.parent[o]]) else 0.0
  {
    hide Prod, ElevationIndexing, DimAOm;
    PartInBounds(c, DimAOm(c), n);
    if n > 0 {
      OverlapRow(c, x, o, n - 1);
      var S := Overlap(c, DimAOm(c), n - 1);
      if n - 1 in DimAOm(c) {
        var e := Entry(n - 1, c.parent[n - 1], c.area[n - 1]);
        assert Overlap(c, DimAOm(c), n) == S + [e];
        ApplyAppend(S, e, x, c.NO());
      } else {
        assert Overlap(c, DimAOm(c), n) == S;
      }
    }
  }

  lemma HandsOn(area: real, w: real)
    requires area != 0.0
    ensures Prod(area, Prod(Recip(area), w)) == w
  {
    assert area * (1.0 / area) == 1.0;
    assert area * ((1.0 / area) * w) == (area * (1.0 / area)) * w;
  }

  /** wAAm adds up the weights of the land cells. */
  lemma AtmosphereWeight(c: Chain, a: nat)
    requires c.Valid() && a < c.nA
    ensures |ChainFactors(c).wAAm| == c.nA
    ensures ChainFactors(c).wAAm[a] == RangeSum(0, c.NO(), WeightTerm(c, a))
  {
    hide Prod, Recip, Apply, ColSums, ChainFactors, DimAOm, WAOm, ElevationIndexing;
    var f := ChainFactors(c);
    FactorsAre(c);
    AreaSize(c);
    LandAreaIs(c, a);
    var x := Hadamard(Inverse(ColSums(f.AAmvAOm, c.nA, c.NO())), f.wAOm);
    CollectLand(c, x, a);
    forall o | 0 <= o < c.NO() ensures LandTerm(c, x, a)(o) == WeightTerm(c, a)(o) {
      if LandIn(c, a, o) {
        OverlapColumn(c, o);
        HandsOn(c.area[o], f.wAOm[o]);
      }
    }
    RangeSumSame(0, c.NO(), LandTerm(c, x, a), WeightTerm(c, a));
  }

  /** wEOm: every class gets its share of the weight of its ocean cell. */
  lemma ClassWeightIs(c: Chain, o: nat, ihc: nat)
    requires c.Valid() && IceInput(c) && o < c.NO() && ihc < c.nhc
    ensures 0 <= c.EO(o, ihc) < c.NEO() == |ChainFactors(c).wEOm|
    ensures ChainFactors(c).wEOm[c.EO(o, ihc)]
         == if o in DimAOm(c) then Prod(IceShare(c, o, ihc), WAOm(c)[o]) else 0.0
  {
    hide Prod, Recip, Apply, ColSums, RowSums, At, ChainFactors, IceInput, DimAOm, WAOm, IceShare, ElevationIndexing,
      ElevationIndex;
    IndexingOf(c);
    ElevationRoundTrip(c.hcO, c.NO(), c.nhc, o, ihc);
    var f, e := ChainFactors(c), c.EO(o, ihc);
    FactorsAre(c);
    EOmEntries(c);
    var T, m, n := f.EOmvAOm, c.NEO(), c.NO();
    forall k | 0 <= k < |T| && T[k].i == e ensures T[k].j == o {
      assert T[k] in T;
      OwnColumn(c, T[k], o, ihc);
    }
    if o in DimAOm(c) {
      LandColumn(c, o, ihc);
      var x := Hadamard(Inverse(ColSums(T, m, n)), f.wAOm);
      ApplyRowConstant(T, x, m, e, x[o]);
      ApplySameRow(T, Ones(n), Unit(n, o), m, e);
      ApplyElement(T, Unit(n, o), m, e);
      BilinUnits(T, m, n, e, o);
      SumsAreApplied(T, m, n);
      var r, v, w := Recip(ColSums(T, m, n)[o]), At(T, e, o), f.wAOm[o];
      ProdComm(r, w);
      ProdAssoc(w, r, v);
      ProdComm(w, Prod(r, v));
    } else {
      if f.wEOm[e] != 0.0 {
        var d := WeightedClass(c, e);
        OwnColumn(c, d, o, ihc);
      }
    }
  }

  /** Class ihc of ocean cell o only has entries in the column of that cell. */
  lemma OwnColumn(c: Chain, d: Entry, o: nat, ihc: nat)
    requires c.Valid() && IceInput(c) && d in ChainFactors(c).EOmvAOm && o < c.NO() && ihc < c.nhc
    requires d.i == c.EO(o, ihc)
    ensures d.j == o && o in DimAOm(c)
  {
    hide ChainFactors, DimAOm, Positive, ElevationIndexing, ElevationIndex;
    EOmEntries(c);
    assert LocalEntry(c, d);
    var h: nat :| h < c.nhc && d.i == c.EO(d.j, h);
    IndexingOf(c);
    SizesOf(c);
    EntryInBounds(c.EOpvAOp, c.NEO(), c.NO(), d);
    ElevationInjective(c.hcO, c.NO(), c.nhc, d.j, h, o, ihc);
  }

  // ---------------------------------------------------------------- grouped classes

  /** What class h of ocean cell o adds to y' EOvEA x. */
  ghost function RawTerm(c: Chain, w: seq<real>, o: nat, a: nat, y: seq<real>, x: seq<real>): int -> real
    requires c.Valid() && |w| == |y| == c.NEO() && |x| == c.NEA() && o < c.NO() && a < c.nA
  {
    h => RawValue(c, w, o, a, y, x, h)
  }

  ghost function RawValue(c: Chain, w: seq<real>, o: nat, a: nat, y: seq<real>, x: seq<real>, h: int): real
    requires c.Valid() && |w| == |y| == c.NEO() && |x| == c.NEA() && o < c.NO() && a < c.nA
  {
    if 0 <= h < c.nhc then
      ElevationRoundTrip(c.hcO, c.NO(), c.nhc, o, h);
      ElevationRoundTrip(c.hcA, c.nA, c.nhc, a, h);
      Prod(y[c.EO(o, h)], Prod(w[c.EO(o, h)], x[c.EA(a, h)]))
    else 0.0
  }

  lemma {:induction false} BilinRaw(c: Chain, w: seq<real>, o: nat, a: nat, n: nat, y: seq<real>, x: seq<real>)
    requires c.Valid() && |w| == |y| == c.NEO() && |x| == c.NEA() && o < c.NO() && a < c.nA && n <= c.nhc
    ensures InBounds(RawEntries(c, w, o, a, n), |y|, |x|)
    ensures Bilin(RawEntries(c, w, o, a, n), y, x) == RangeSum(0, n, RawTerm(c, w, o, a, y, x))
  {
    hide Prod, ElevationIndexing, ElevationIndex, Chain.Valid;
    if n > 0 {
      BilinRaw(c, w, o, a, n - 1, y, x);
      IndexingOf(c);
      ElevationRoundTrip(c.hcO, c.NO(), c.nhc, o, n - 1);
      ElevationRoundTrip(c.hcA, c.nA, c.nhc, a, n - 1);
      var S, v := RawEntries(c, w, o, a, n - 1), w[c.EO(o, n - 1)];
      if v != 0.0 {
        var e := Entry(c.EO(o, n - 1), c.EA(a, n - 1), v);
        assert RawEntries(c, w, o, a, n) == S + [e];
        BilinSingle(e, y, x);
        BilinConcat(S, [e], y, x);
      } else {
        assert RawEntries(c, w, o, a, n) == S;
        ProdConst(x[c.EA(a, n - 1)]);
        ProdConst(y[c.EO(o, n - 1)]);
      }
    }
  }

  ghost function GroupTerm(c: Chain, w: seq<real>, y: seq<real>, x: seq<real>): int -> real
    requires c.Valid() && |w| == |y| == c.NEO() && |x| == c.NEA()
  {
    o => if 0 <= o < c.NO() && o in DimAOm(c) then RangeSum(0, c.nhc, RawTerm(c, w, o, c.parent[o], y, x)) else 0.0
  }

  lemma {:induction false} BilinGrouped(c: Chain, w: seq<real>, y: seq<real>, x: seq<real>, n: nat)
    requires c.Valid() && |w| == |y| == c.NEO() && |x| == c.NEA() && n <= c.NO()
    ensures InBounds(Overlap(c, DimAOm(c), n), c.NO(), c.nA)
    ensures InBounds(EOvEA(c, w, Overlap(c, DimAOm(c), n)), |y|, |x|)
    ensures Bilin(EOvEA(c, w, Overlap(c, DimAOm(c), n)), y, x) == RangeSum(0, n, GroupTerm(c, w, y, x))
  {
    hide Prod, ElevationIndexing, ElevationIndex, DimAOm, RawTerm, RawEntries, Bilin;
    PartInBounds(c, DimAOm(c), n);
    if n == 0 {
      BilinEmpty(y, x);
    } else {
      PartInBounds(c, DimAOm(c), n - 1);
      BilinGrouped(c, w, y, x, n - 1);
      var S := Overlap(c, DimAOm(c), n - 1);
      if n - 1 in DimAOm(c) {
        var e := Entry(n - 1, c.parent[n - 1], c.area[n - 1]);
        assert Overlap(c, DimAOm(c), n) == S + [e];
        assert (S + [e])[..|S|] == S;
        BilinRaw(c, w, e.i, e.j, c.nhc, y, x);
        BilinConcat(EOvEA(c, w, S), RawEntries(c, w, e.i, e.j, c.nhc), y, x);
      } else {
        assert Overlap(c, DimAOm(c), n) == S;
      }
    }
  }

  lemma BilinChain(c: Chain, y: seq<real>, x: seq<real>)
    requires c.Valid() && |y| == c.NEO() && |x| == c.NEA()
    ensures var f := ChainFactors(c);
      && InBounds(f.EOmvEAm, |y|, |x|) && |f.wEOm| == c.NEO()
      && Bilin(f.EOmvEAm, y, x) == RangeSum(0, c.NO(), GroupTerm(c, f.wEOm, y, x))
  {
    hide ChainFactors, GroupTerm, Overlap, DimAOm, Bilin;
    RawIs(c);
    BilinGrouped(c, ChainFactors(c).wEOm, y, x, c.NO());
  }

  /** A group only has terms where its classes are picked out on one side. */
  lemma OnlyTerm(c: Chain, w: seq<real>, o: nat, a: nat, y: seq<real>, x: seq<real>, h: nat)
    requires c.Valid() && |w| == |y| == c.NEO() && |x| == c.NEA() && o < c.NO() && a < c.nA && h < c.nhc
    requires forall g: nat :: g < c.nhc && g != h ==> RawValue(c, w, o, a, y, x, g) == 0.0
    ensures RangeSum(0, c.nhc, RawTerm(c, w, o, a, y, x)) == RawValue(c, w, o, a, y, x, h)
  {
    hide RawValue, ElevationIndexing;
    RangeSumPick(0, c.nhc, RawTerm(c, w, o, a, y, x), h);
  }

  lemma NoTerm(c: Chain, w: seq<real>, o: nat, a: nat, y: seq<real>, x: seq<real>)
    requires c.Valid() && |w| == |y| == c.NEO() && |x| == c.NEA() && o < c.NO() && a < c.nA
    requires forall g: nat :: g < c.nhc ==> RawValue(c, w, o, a, y, x, g) == 0.0
    ensures RangeSum(0, c.nhc, RawTerm(c, w, o, a, y, x)) == 0.0
  {
    hide RawValue, ElevationIndexing;
    ZeroRange(0, c.nhc);
    RangeSumSame(0, c.nhc, RawTerm(c, w, o, a, y, x), _ => 0.0);
  }

  lemma RawValueIs(c: Chain, w: seq<real>, o: nat, a: nat, y: seq<real>, x: seq<real>, h: nat)
    requires c.Valid() && |w| == |y| == c.NEO() && |x| == c.NEA() && o < c.NO() && a < c.nA && h < c.nhc
    ensures 0 <= c.EO(o, h) < |y| && 0 <= c.EA(a, h) < |x|
    ensures RawValue(c, w, o, a, y, x, h) == Prod(y[c.EO(o, h)], Prod(w[c.EO(o, h)], x[c.EA(a, h)]))
  {
    hide Prod, ElevationIndexing, ElevationIndex;
    IndexingOf(c);
    ElevationRoundTrip(c.hcO, c.NO(), c.nhc, o, h);
    ElevationRoundTrip(c.hcA, c.nA, c.nhc, a, h);
  }

  /** A row of EOmvEAm adds up to the weight of its class. */
  lemma GroupedRow(c: Chain, o: nat, h: nat)
    requires c.Valid() && o in DimAOm(c) && o < c.NO() && h < c.nhc
    ensures var f := ChainFactors(c);
      && 0 <= c.EO(o, h) < c.NEO() == |f.wEOm| && InBounds(f.EOmvEAm, c.NEO(), c.NEA())
      && RowSums(f.EOmvEAm, c.NEO(), c.NEA())[c.EO(o, h)] == f.wEOm[c.EO(o, h)]
  {
    hide Prod, Apply, Bilin, ChainFactors, DimAOm, RawTerm, RawValue, ElevationIndexing, ElevationIndex;
    IndexingOf(c);
    ElevationRoundTrip(c.hcO, c.NO(), c.nhc, o, h);
    var f, i := ChainFactors(c), c.EO(o, h);
    var w, y, x := f.wEOm, Unit(c.NEO(), i), Ones(c.NEA());
    BilinChain(c, y, x);
    ApplyElement(f.EOmvEAm, x, c.NEO(), i);
    forall l: nat | l < c.NO() && l in DimAOm(c) && l != o ensures GroupTerm(c, w, y, x)(l) == 0.0 {
      forall g: nat | g < c.nhc ensures RawValue(c, w, l, c.parent[l], y, x, g) == 0.0 {
        OtherRow(c, l, g, o, h);
        RawValueIs(c, w, l, c.parent[l], y, x, g);
        ProdConst(Prod(w[c.EO(l, g)], x[c.EA(c.parent[l], g)]));
      }
      NoTerm(c, w, l, c.parent[l], y, x);
    }
    forall g: nat | g < c.nhc && g != h ensures RawValue(c, w, o, c.parent[o], y, x, g) == 0.0 {
      OtherRow(c, o, g, o, h);
      RawValueIs(c, w, o, c.parent[o], y, x, g);
      ProdConst(Prod(w[c.EO(o, g)], x[c.EA(c.parent[o], g)]));
    }
    OnlyTerm(c, w, o, c.parent[o], y, x, h);
    RawValueIs(c, w, o, c.parent[o], y, x, h);
    ProdConst(w[i]);
    RangeSumPick(0, c.NO(), GroupTerm(c, w, y, x), o);
  }

  lemma OtherRow(c: Chain, l: nat, g: nat, o: nat, h: nat)
    requires c.Valid() && l < c.NO() && o < c.NO() && g < c.nhc && h < c.nhc && (l != o || g != h)
    ensures c.EO(l, g) != c.EO(o, h)
  {
    hide ElevationIndexing, ElevationIndex;
    IndexingOf(c);
    if c.EO(l, g) == c.EO(o, h) {
      ElevationInjective(c.hcO, c.NO(), c.nhc, l, g, o, h);
    }
  }

  /** The weight of class ihc in the land cells of atmosphere cell a. */
  ghost function ClassWeightTerm(c: Chain, a: nat, ihc: nat): int -> real
    requires c.Valid() && ihc < c.nhc
  {
    o => if LandIn(c, a, o) then Prod(IceShare(c, o, ihc), WAOm(c)[o]) else 0.0
  }

  /** wEAm: every class of an atmosphere cell adds up the weights that it has in the land cells. */
  lemma AtmosphereClassWeight(c: Chain, a: nat, ihc: nat)
    requires c.Valid() && IceInput(c) && a < c.nA && ihc < c.nhc
    ensures 0 <= c.EA(a, ihc) < c.NEA() == |ChainFactors(c).wEAm|
    ensures ChainFactors(c).wEAm[c.EA(a, ihc)] == RangeSum(0, c.NO(), ClassWeightTerm(c, a, ihc))
  {
    hide Prod, Apply, Bilin, ChainFactors, IceInput, DimAOm, GroupTerm, ClassWeightTerm, HandOn, ElevationIndexing,
      ElevationIndex;
    IndexingOf(c);
    ElevationRoundTrip(c.hcA, c.nA, c.nhc, a, ihc);
    var f, j := ChainFactors(c), c.EA(a, ihc);
    FactorsAre(c);
    var y, u := HandedOn(c), Unit(c.NEA(), j);
    BilinChain(c, y, u);
    HandOnIs(c);
    ApplyElement(Transpose(f.EOmvEAm), y, c.NEA(), j);
    BilinTranspose(f.EOmvEAm, y, u);
    forall o | 0 <= o < c.NO() ensures GroupTerm(c, f.wEOm, y, u)(o) == ClassWeightTerm(c, a, ihc)(o) {
      GroupWeight(c, a, ihc, o);
    }
    RangeSumSame(0, c.NO(), GroupTerm(c, f.wEOm, y, u), ClassWeightTerm(c, a, ihc));
  }

  /** What HandOn multiplies EOmvEAm with, from the left. */
  ghost function HandedOn(c: Chain): (y: seq<real>)
    requires c.Valid()
    ensures |y| == c.NEO()
  {
    var f := ChainFactors(c);
    Hadamard(Inverse(RowSums(f.EOmvEAm, c.NEO(), c.NEA())), f.wEOm)
  }

  lemma HandOnIs(c: Chain)
    requires c.Valid()
    ensures var f := ChainFactors(c);
      && InBounds(Transpose(f.EOmvEAm), c.NEA(), c.NEO())
      && HandOn(Transpose(f.EOmvEAm), c.NEA(), f.wEOm) == Apply(Transpose(f.EOmvEAm), HandedOn(c), c.NEA())
  {
    hide Apply, ChainFactors, Chain.Valid;
    TurnedSums(ChainFactors(c).EOmvEAm, c.NEO(), c.NEA());
  }

  lemma ShareOfOne(w: real, x: real)
    ensures Prod(Prod(Recip(w), w), Prod(w, 1.0)) == w && Prod(x, Prod(w, 0.0)) == 0.0
  {
    if w != 0.0 { assert (1.0 / w) * w == 1.0; }
  }

  lemma GroupWeight(c: Chain, a: nat, ihc: nat, o: nat)
    requires c.Valid() && IceInput(c) && a < c.nA && ihc < c.nhc && o < c.NO()
    ensures 0 <= c.EA(a, ihc) < c.NEA() && |ChainFactors(c).wEOm| == c.NEO()
    ensures GroupTerm(c, ChainFactors(c).wEOm, HandedOn(c), Unit(c.NEA(), c.EA(a, ihc)))(o)
         == ClassWeightTerm(c, a, ihc)(o)
  {
    hide Prod, Recip, Apply, ChainFactors, IceInput, DimAOm, RawTerm, RawValue, IceShare, WAOm, RowSums,
      ElevationIndexing, ElevationIndex;
    IndexingOf(c);
    ElevationRoundTrip(c.hcA, c.nA, c.nhc, a, ihc);
    var w, y, u := ChainFactors(c).wEOm, HandedOn(c), Unit(c.NEA(), c.EA(a, ihc));
    ClassWeightIs(c, o, ihc);
    if o in DimAOm(c) {
      var p := c.parent[o];
      forall g: nat | g < c.nhc && (p != a || g != ihc) ensures RawValue(c, w, o, p, y, u, g) == 0.0 {
        RawValueIs(c, w, o, p, y, u, g);
        OtherColumn(c, p, g, a, ihc);
        ShareOfOne(w[c.EO(o, g)], y[c.EO(o, g)]);
      }
      if p == a {
        OnlyTerm(c, w, o, p, y, u, ihc);
        RawValueIs(c, w, o, p, y, u, ihc);
        GroupedRow(c, o, ihc);
        ShareOfOne(w[c.EO(o, ihc)], 0.0);
      } else {
        NoTerm(c, w, o, p, y, u);
      }
    }
  }

  lemma OtherColumn(c: Chain, p: nat, g: nat, a: nat, h: nat)
    requires c.Valid() && p < c.nA && a < c.nA && g < c.nhc && h < c.nhc && (p != a || g != h)
    ensures c.EA(p, g) != c.EA(a, h)
  {
    hide ElevationIndexing, ElevationIndex;
    IndexingOf(c);
    if c.EA(p, g) == c.EA(a, h) {
      ElevationInjective(c.hcA, c.nA, c.nhc, p, g, a, h);
    }
  }
}
