/**
 Stacking and squashing together: whichever form compute_EOpvAOp_merged of slib/icebin/modele/merge_topo.cpp returns,
 every column keeps, at every ocean cell and elevation, what the local ice sheets and the global ice hold there.
 */
module MergedElevations {
  import opened Vectors
  import opened Sums
  import opened Ints
  import opened Sparse
  import opened Indexing
  import opened VerticalInterp
  import opened ExchangeGrid
  import opened ElevationMerge

  // ---------------------------------------------------------------- bounds of the stack

  ghost predicate SheetsInBounds(sheets: seq<Triplets>, m: nat, n: nat)
  {
    forall k :: 0 <= k < |sheets| ==> InBounds(sheets[k], m, n)
  }

  lemma {:induction false} AllInBounds(sheets: seq<Triplets>, m: nat, n: nat, s: nat)
    requires SheetsInBounds(sheets, m, n) && s <= |sheets|
    ensures InBounds(AllEntries(sheets, s), m, n)
  {
    hide InBounds;
    if s == 0 {
      EmptyInBounds(m, n);
    } else {
      AllInBounds(sheets, m, n, s - 1);
      InBoundsConcat(AllEntries(sheets, s - 1), sheets[s - 1], m, n);
    }
  }

  lemma EmptyInBounds(m: nat, n: nat)
    ensures InBounds([], m, n)
  {
  }

  lemma WiderInBounds(T: Triplets, m: nat, m': nat, n: nat)
    requires InBounds(T, m, n) && m <= m'
    ensures InBounds(T, m', n)
  {
  }

  lemma ShiftedInBounds(T: Triplets, m: nat, n: nat, offset: nat)
    requires InBounds(T, m, n)
    ensures InBounds(Shifted(T, offset), m + offset, n)
  {
  }

  /** What the stacking is given: indexings whose classes have the largest stride, and matrices of that shape. */
  ghost predicate MergeInput(useGlobal: bool, nO: nat, nA: nat, sheets: seq<Triplets>, local: Classes, base: Triplets,
                             global: Classes)
  {
    && ClassesOf(local, nO) && ClassesOf(global, nO) && LargestStride(local) && LargestStride(global)
    && SheetsInBounds(sheets, nO * |local.hcdefs|, nA)
    && (useGlobal ==> InBounds(base, nO * |global.hcdefs|, nA))
  }

  lemma SizesAdd(nO: nat, l: nat, g: nat)
    ensures nO * l + nO * g == nO * (l + g)
    ensures nO * l <= nO * (l + g)
  {
  }

  /** With local ice the stacked matrix fits its own elevation grid. */
  lemma StackInBounds(useGlobal: bool, nO: nat, nA: nat, sheets: seq<Triplets>, local: Classes, base: Triplets,
                      global: Classes, ret: Merged)
    requires MergeInput(useGlobal, nO, nA, sheets, local, base, global)
    requires |global.indexingHC.extent| == 2 && Stacked(useGlobal, true, nO, sheets, local, base, global, ret)
    ensures InBounds(ret.EOpvAOp, nO * |ret.hcdefs|, nA)
    ensures |ret.hcdefs| > 0 && ElevationIndexing(ret.indexingHC, nO, |ret.hcdefs|) && ret.indexingHC.indices == [1, 0]
  {
    hide InBounds, ElevationIndexing;
    var l, g := |local.hcdefs|, |global.hcdefs|;
    ChangedIndexing(global.indexingHC, nO, g, |ret.hcdefs|);
    AllInBounds(sheets, nO * l, nA, |sheets|);
    if useGlobal {
      SizesAdd(nO, l, g);
      ShiftedInBounds(base, nO * g, nA, ret.offsetE);
      WiderInBounds(AllEntries(sheets, |sheets|), nO * l, nO * |ret.hcdefs|, nA);
      InBoundsConcat(AllEntries(sheets, |sheets|), Shifted(base, ret.offsetE), nO * |ret.hcdefs|, nA);
    } else {
      assert ret.EOpvAOp == AllEntries(sheets, |sheets|);
    }
  }

  // ---------------------------------------------------------------- sums of the stack

  lemma SumConcat(hc: Shape, nO: nat, hcdefs: seq<real>, S: Triplets, T: Triplets, o: nat, z: real, a: nat)
    requires ElevationIndexing(hc, nO, |hcdefs|) && o < nO
    ensures ElevationSum(hc, nO, hcdefs, S + T, o, z, a)
         == ElevationSum(hc, nO, hcdefs, S, o, z, a) + ElevationSum(hc, nO, hcdefs, T, o, z, a)
  {
    hide ElevationIndexing, ElevationIndex, At;
    var f, g := ClassTerm(hc, nO, hcdefs, S, o, z, a), ClassTerm(hc, nO, hcdefs, T, o, z, a);
    var s := ClassTerm(hc, nO, hcdefs, S + T, o, z, a);
    IndexingIsValid(hc, nO, |hcdefs|);
    forall ihc | 0 <= ihc < |hcdefs| ensures s(ihc) == f(ihc) + g(ihc) {
      ElevationRoundTrip(hc, nO, |hcdefs|, o, ihc);
      AtConcat(S, T, ElevationIndex(hc, o, ihc), a);
    }
    RangeSumPlus(0, |hcdefs|, f, g, s);
  }

  /** A local matrix stands for the same cells, elevations and values in the stack. */
  lemma LocalIsStacked(nO: nat, nA: nat, T: Triplets, local: Classes, hc: Shape, hcdefs: seq<real>)
    requires ClassesOf(local, nO) && LargestStride(local) && InBounds(T, nO * |local.hcdefs|, nA)
    requires ElevationIndexing(hc, nO, |hcdefs|) && hc.indices == [1, 0] && local.hcdefs <= hcdefs
    ensures Squashed(local.indexingHC, hc, nO, local.hcdefs, hcdefs, T, T)
  {
    hide ElevationIndexing, ElevationIndex, SquashedEntry;
    IndexingIsValid(hc, nO, |hcdefs|);
    forall k | 0 <= k < |T| ensures SquashedEntry(local.indexingHC, hc, nO, local.hcdefs, hcdefs, T[k], T[k]) {
      var o, h := CellAndClass(local.indexingHC, nO, |local.hcdefs|, T[k].i);
      LargestStrideIndex(local.indexingHC, nO, |local.hcdefs|, o, h);
      LargestStrideIndex(hc, nO, |hcdefs|, o, h);
      IsSquashed(local.indexingHC, hc, nO, local.hcdefs, hcdefs, T[k], T[k], o, h, h);
    }
  }

  /** The global matrix, shifted past the local classes, stands for the same cells, elevations and values. */
  lemma GlobalIsStacked(nO: nat, nA: nat, sheets: seq<Triplets>, local: Classes, base: Triplets, global: Classes,
                        ret: Merged)
    requires MergeInput(true, nO, nA, sheets, local, base, global)
    requires |global.indexingHC.extent| == 2 && Stacked(true, true, nO, sheets, local, base, global, ret)
    requires ElevationIndexing(ret.indexingHC, nO, |ret.hcdefs|)
    ensures Squashed(global.indexingHC, ret.indexingHC, nO, global.hcdefs, ret.hcdefs, base, Shifted(base, ret.offsetE))
  {
    hide ElevationIndexing, ElevationIndex, SquashedEntry, SheetsInBounds;
    IndexingIsValid(ret.indexingHC, nO, |ret.hcdefs|);
    var T := Shifted(base, ret.offsetE);
    forall k | 0 <= k < |base|
      ensures SquashedEntry(global.indexingHC, ret.indexingHC, nO, global.hcdefs, ret.hcdefs, base[k], T[k])
    {
      var o, h := CellAndClass(global.indexingHC, nO, |global.hcdefs|, base[k].i);
      StackedClass(nO, local, global, ret, o, h);
      IsSquashed(global.indexingHC, ret.indexingHC, nO, global.hcdefs, ret.hcdefs, base[k], T[k], o, h,
                 |local.hcdefs| + h);
    }
  }

  /** What the first n local ice sheets hold at one ocean cell and elevation in one column. */
  ghost function SheetSums(local: Classes, nO: nat, sheets: seq<Triplets>, n: nat, o: nat, z: real, a: nat): real
    requires ClassesOf(local, nO) && o < nO && n <= |sheets|
  {
    if n == 0 then 0.0
    else
      SheetSums(local, nO, sheets, n - 1, o, z, a)
      + ElevationSum(local.indexingHC, nO, local.hcdefs, sheets[n - 1], o, z, a)
  }

  lemma {:induction false} LocalSums(nO: nat, nA: nat, sheets: seq<Triplets>, n: nat, local: Classes, hc: Shape,
                                     hcdefs: seq<real>, o: nat, z: real, a: nat)
    requires ClassesOf(local, nO) && LargestStride(local) && SheetsInBounds(sheets, nO * |local.hcdefs|, nA)
    requires ElevationIndexing(hc, nO, |hcdefs|) && hc.indices == [1, 0] && local.hcdefs <= hcdefs
    requires o < nO && n <= |sheets|
    ensures ElevationSum(hc, nO, hcdefs, AllEntries(sheets, n), o, z, a) == SheetSums(local, nO, sheets, n, o, z, a)
  {
    hide ElevationIndexing, ElevationSum, Squashed, InBounds;
    if n == 0 {
      NothingSummed(hc, nO, hcdefs, o, z, a);
    } else {
      var T := sheets[n - 1];
      LocalSums(nO, nA, sheets, n - 1, local, hc, hcdefs, o, z, a);
      SumConcat(hc, nO, hcdefs, AllEntries(sheets, n - 1), T, o, z, a);
      LocalIsStacked(nO, nA, T, local, hc, hcdefs);
      SquashKeepsSums(local.indexingHC, hc, nO, local.hcdefs, hcdefs, T, T, o, z, a);
    }
  }

  /** The merged matrix holds at every cell and elevation what its parts hold there together. */
  ghost predicate HoldsAllIce(useGlobal: bool, nO: nat, sheets: seq<Triplets>, local: Classes, base: Triplets,
                              global: Classes, ret: Merged)
    requires ClassesOf(local, nO) && ClassesOf(global, nO) && ElevationIndexing(ret.indexingHC, nO, |ret.hcdefs|)
  {
    forall o: nat, z: real, a: nat :: o < nO ==>
      ElevationSum(ret.indexingHC, nO, ret.hcdefs, ret.EOpvAOp, o, z, a)
      == SheetSums(local, nO, sheets, |sheets|, o, z, a)
         + if useGlobal then ElevationSum(global.indexingHC, nO, global.hcdefs, base, o, z, a) else 0.0
  }

  /** Stacking: local and global ice keep their cells, elevations and values. */
  lemma StackHoldsAllIce(useGlobal: bool, nO: nat, nA: nat, sheets: seq<Triplets>, local: Classes, base: Triplets,
                         global: Classes, ret: Merged)
    requires MergeInput(useGlobal, nO, nA, sheets, local, base, global)
    requires |global.indexingHC.extent| == 2 && Stacked(useGlobal, true, nO, sheets, local, base, global, ret)
    ensures ElevationIndexing(ret.indexingHC, nO, |ret.hcdefs|)
    ensures HoldsAllIce(useGlobal, nO, sheets, local, base, global, ret)
  {
    hide ElevationIndexing, ElevationSum, SheetSums, Squashed, InBounds;
    StackInBounds(useGlobal, nO, nA, sheets, local, base, global, ret);
    var hc, T := ret.indexingHC, AllEntries(sheets, |sheets|);
    forall o: nat, z: real, a: nat | o < nO
      ensures ElevationSum(hc, nO, ret.hcdefs, ret.EOpvAOp, o, z, a)
           == SheetSums(local, nO, sheets, |sheets|, o, z, a)
              + if useGlobal then ElevationSum(global.indexingHC, nO, global.hcdefs, base, o, z, a) else 0.0
    {
      LocalSums(nO, nA, sheets, |sheets|, local, hc, ret.hcdefs, o, z, a);
      if useGlobal {
        GlobalIsStacked(nO, nA, sheets, local, base, global, ret);
        SumConcat(hc, nO, ret.hcdefs, T, Shifted(base, ret.offsetE), o, z, a);
        SquashKeepsSums(global.indexingHC, hc, nO, global.hcdefs, ret.hcdefs,
                        base, Shifted(base, ret.offsetE), o, z, a);
      } else {
        assert ret.EOpvAOp == T;
      }
    }
  }

  /** Squashing the stack loses nothing either. */
  lemma SquashHoldsAllIce(useGlobal: bool, nO: nat, sheets: seq<Triplets>, local: Classes, base: Triplets,
                          global: Classes, stack: Merged, ret: Merged)
    requires ClassesOf(local, nO) && ClassesOf(global, nO) && ElevationIndexing(stack.indexingHC, nO, |stack.hcdefs|)
    requires ElevationIndexing(ret.indexingHC, nO, |ret.hcdefs|)
    requires HoldsAllIce(useGlobal, nO, sheets, local, base, global, stack)
    requires Squashed(stack.indexingHC, ret.indexingHC, nO, stack.hcdefs, ret.hcdefs, stack.EOpvAOp, ret.EOpvAOp)
    ensures HoldsAllIce(useGlobal, nO, sheets, local, base, global, ret)
  {
    hide ElevationIndexing, ElevationSum, SheetSums, Squashed;
    forall o: nat, z: real, a: nat | o < nO
      ensures ElevationSum(ret.indexingHC, nO, ret.hcdefs, ret.EOpvAOp, o, z, a)
           == ElevationSum(stack.indexingHC, nO, stack.hcdefs, stack.EOpvAOp, o, z, a)
    {
      SquashKeepsSums(stack.indexingHC, ret.indexingHC, nO, stack.hcdefs, ret.hcdefs,
                      stack.EOpvAOp, ret.EOpvAOp, o, z, a);
    }
  }

  // ---------------------------------------------------------------- locality

  /** Every entry is positive and joins an ocean cell with one of its own elevation classes. */
  ghost predicate LocalMatrix(hc: Shape, nO: nat, nhc: nat, T: Triplets)
    requires ElevationIndexing(hc, nO, nhc)
  {
    Positive(T) && forall k :: 0 <= k < |T| ==> OwnClass(hc, nO, nhc, T[k])
  }

  ghost predicate OwnClass(hc: Shape, nO: nat, nhc: nat, e: Entry)
    requires ElevationIndexing(hc, nO, nhc)
  {
    e.j < nO && exists h: nat :: h < nhc && e.i == ElevationIndex(hc, e.j, h)
  }

  lemma LocalConcat(hc: Shape, nO: nat, nhc: nat, S: Triplets, T: Triplets)
    requires ElevationIndexing(hc, nO, nhc) && LocalMatrix(hc, nO, nhc, S) && LocalMatrix(hc, nO, nhc, T)
    ensures LocalMatrix(hc, nO, nhc, S + T)
  {
    hide ElevationIndexing, OwnClass;
  }

  /** An entry that stands for the same cell in another indexing stays with its own cell. */
  lemma SquashedOwnClass(hc: Shape, hc1: Shape, nO: nat, hcdefs: seq<real>, hcdefs1: seq<real>, e: Entry, e1: Entry)
    requires ElevationIndexing(hc, nO, |hcdefs|) && ElevationIndexing(hc1, nO, |hcdefs1|)
    requires SquashedEntry(hc, hc1, nO, hcdefs, hcdefs1, e, e1) && OwnClass(hc, nO, |hcdefs|, e)
    ensures OwnClass(hc1, nO, |hcdefs1|, e1)
  {
    hide ElevationIndex, ElevationIndexing;
    IndexingIsValid(hc, nO, |hcdefs|);
    IndexingIsValid(hc1, nO, |hcdefs1|);
    var g: nat :| g < |hcdefs| && e.i == ElevationIndex(hc, e.j, g);
    var o: nat, h: nat, h1: nat :| o < nO && h < |hcdefs| && h1 < |hcdefs1| && hcdefs[h] == hcdefs1[h1]
      && e.i == ElevationIndex(hc, o, h) && e1.i == ElevationIndex(hc1, o, h1);
    ElevationInjective(hc, nO, |hcdefs|, o, h, e.j, g);
  }

  /** So squashing, and stacking too, leave a matrix local and positive. */
  lemma SquashedIsLocal(hc: Shape, hc1: Shape, nO: nat, hcdefs: seq<real>, hcdefs1: seq<real>, T: Triplets,
                        T1: Triplets)
    requires ElevationIndexing(hc, nO, |hcdefs|) && ElevationIndexing(hc1, nO, |hcdefs1|)
    requires Squashed(hc, hc1, nO, hcdefs, hcdefs1, T, T1) && LocalMatrix(hc, nO, |hcdefs|, T)
    ensures LocalMatrix(hc1, nO, |hcdefs1|, T1)
  {
    hide ElevationIndexing, OwnClass, SquashedEntry;
    forall k | 0 <= k < |T1| ensures OwnClass(hc1, nO, |hcdefs1|, T1[k]) && T1[k].v > 0.0 {
      assert SquashedEntry(hc, hc1, nO, hcdefs, hcdefs1, T[k], T1[k]);
      SquashedOwnClass(hc, hc1, nO, hcdefs, hcdefs1, T[k], T1[k]);
      SquashedValue(hc, hc1, nO, hcdefs, hcdefs1, T[k], T1[k]);
    }
  }

  lemma SquashedValue(hc: Shape, hc1: Shape, nO: nat, hcdefs: seq<real>, hcdefs1: seq<real>, e: Entry, e1: Entry)
    requires ElevationIndexing(hc, nO, |hcdefs|) && ElevationIndexing(hc1, nO, |hcdefs1|)
    requires SquashedEntry(hc, hc1, nO, hcdefs, hcdefs1, e, e1)
    ensures e.v == e1.v && e.j == e1.j
  {
    hide ElevationIndexing, ElevationIndex;
  }

  ghost predicate LocalSheets(c: Classes, nO: nat, sheets: seq<Triplets>)
    requires ClassesOf(c, nO)
  {
    forall k :: 0 <= k < |sheets| ==> LocalMatrix(c.indexingHC, nO, |c.hcdefs|, sheets[k])
  }

  lemma {:induction false} AllEntriesLocal(c: Classes, nO: nat, sheets: seq<Triplets>, n: nat)
    requires ClassesOf(c, nO) && LocalSheets(c, nO, sheets) && n <= |sheets|
    ensures LocalMatrix(c.indexingHC, nO, |c.hcdefs|, AllEntries(sheets, n))
  {
    hide ElevationIndexing, OwnClass;
    if n > 0 {
      AllEntriesLocal(c, nO, sheets, n - 1);
      LocalConcat(c.indexingHC, nO, |c.hcdefs|, AllEntries(sheets, n - 1), sheets[n - 1]);
    }
  }

  lemma MergeInputClasses(useGlobal: bool, nO: nat, nA: nat, sheets: seq<Triplets>, local: Classes, base: Triplets,
                          global: Classes)
    requires MergeInput(useGlobal, nO, nA, sheets, local, base, global)
    ensures ClassesOf(local, nO) && ClassesOf(global, nO)
  {
  }

  /** A stack of local matrices is local. */
  lemma StackIsLocal(useGlobal: bool, nO: nat, nA: nat, sheets: seq<Triplets>, local: Classes, base: Triplets,
                     global: Classes, ret: Merged)
    requires MergeInput(useGlobal, nO, nA, sheets, local, base, global) && LocalSheets(local, nO, sheets)
    requires useGlobal ==> LocalMatrix(global.indexingHC, nO, |global.hcdefs|, base)
    requires |global.indexingHC.extent| == 2 && Stacked(useGlobal, true, nO, sheets, local, base, global, ret)
    ensures ElevationIndexing(ret.indexingHC, nO, |ret.hcdefs|)
    ensures LocalMatrix(ret.indexingHC, nO, |ret.hcdefs|, ret.EOpvAOp)
  {
    hide ElevationIndexing, InBounds, Squashed, LocalMatrix;
    StackInBounds(useGlobal, nO, nA, sheets, local, base, global, ret);
    var hc, T, n := ret.indexingHC, AllEntries(sheets, |sheets|), |ret.hcdefs|;
    AllInBounds(sheets, nO * |local.hcdefs|, nA, |sheets|);
    LocalIsStacked(nO, nA, T, local, hc, ret.hcdefs);
    AllEntriesLocal(local, nO, sheets, |sheets|);
    SquashedIsLocal(local.indexingHC, hc, nO, local.hcdefs, ret.hcdefs, T, T);
    if useGlobal {
      GlobalIsStacked(nO, nA, sheets, local, base, global, ret);
      SquashedIsLocal(global.indexingHC, hc, nO, global.hcdefs, ret.hcdefs, base, Shifted(base, ret.offsetE));
      LocalConcat(hc, nO, n, T, Shifted(base, ret.offsetE));
    } else {
      assert ret.EOpvAOp == T;
    }
  }

  // ---------------------------------------------------------------- the whole merge

  /** compute_EOpvAOp_merged with local ice: the stack, or the stack with one class for every elevation. */
  method ComputeMerged(useGlobal: bool, squashEcs: bool, nO: nat, nA: nat, sheets: seq<Triplets>, local: Classes,
                       base: Triplets, global: Classes) returns (ret: Merged)
    requires MergeInput(useGlobal, nO, nA, sheets, local, base, global)
    ensures |global.indexingHC.extent| == 2 && ElevationIndexing(ret.indexingHC, nO, |ret.hcdefs|)
    ensures !squashEcs ==> Stacked(useGlobal, true, nO, sheets, local, base, global, ret)
    ensures squashEcs ==> StrictlyAscending(ret.hcdefs)
    ensures forall x :: x in ret.hcdefs <==> x in local.hcdefs || (useGlobal && x in global.hcdefs)
    ensures HoldsAllIce(useGlobal, nO, sheets, local, base, global, ret)
    ensures LocalSheets(local, nO, sheets) && (useGlobal ==> LocalMatrix(global.indexingHC, nO, |global.hcdefs|, base))
            ==> LocalMatrix(ret.indexingHC, nO, |ret.hcdefs|, ret.EOpvAOp)
  {
    hide ElevationIndexing, InBounds, Squashed, HoldsAllIce, LocalMatrix, LocalSheets;
    ghost var localParts := LocalSheets(local, nO, sheets)
      && (useGlobal ==> LocalMatrix(global.indexingHC, nO, |global.hcdefs|, base));
    var stack := MergeClasses(useGlobal, true, nO, sheets, local, base, global);
    StackInBounds(useGlobal, nO, nA, sheets, local, base, global, stack);
    StackHoldsAllIce(useGlobal, nO, nA, sheets, local, base, global, stack);
    if localParts {
      StackIsLocal(useGlobal, nO, nA, sheets, local, base, global, stack);
    }
    if squashEcs {
      ret := SquashECs(stack.EOpvAOp, stack.hcdefs, stack.indexingHC, nO, nA);
      SquashHoldsAllIce(useGlobal, nO, sheets, local, base, global, stack, ret);
      if localParts {
        SquashedIsLocal(stack.indexingHC, ret.indexingHC, nO, stack.hcdefs, ret.hcdefs, stack.EOpvAOp, ret.EOpvAOp);
      }
    } else {
      ret := stack;
    }
  }
}
