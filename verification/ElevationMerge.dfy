/**
 Elevation classes of local ice sheets and of the global ice are stacked into one matrix EOpvAOp, and classes of the
 same elevation can be squashed into one (compute_EOpvAOp_merged and squash_ECs in slib/icebin/modele/merge_topo.cpp).
 */
module ElevationMerge {
  import opened Vectors
  import opened Sums
  import opened Ints
  import opened Sparse
  import opened Indexing
  import opened VerticalInterp
  import opened ExchangeGrid

  datatype Underice = UI_LOCALICE | UI_GLOBALICE

  datatype Merged = Merged(EOpvAOp: Triplets, hcdefs: seq<real>, underice: seq<Underice>, offsetE: nat,
                           indexingHC: Shape)

  /** indexingHC_change_nhc */
  function ChangeNhc(hc: Shape, nhc: nat): Shape
    requires |hc.extent| == 2
  {
    Shape(hc.base, [hc.extent[0], nhc], hc.indices)
  }

  lemma ChangedIndexing(hc: Shape, nO: nat, nhc: nat, n: nat)
    requires ElevationIndexing(hc, nO, nhc) && n > 0
    ensures ElevationIndexing(ChangeNhc(hc, n), nO, n)
  {
  }

  // ---------------------------------------------------------------- stacking

  ghost function AllEntries(sheets: seq<Triplets>, n: nat): Triplets
    requires n <= |sheets|
  {
    if n == 0 then [] else AllEntries(sheets, n - 1) + sheets[n - 1]
  }

  function Shifted(T: Triplets, offset: nat): (r: Triplets)
    ensures |r| == |T| && forall k :: 0 <= k < |T| ==> r[k] == Entry(T[k].i + offset, T[k].j, T[k].v)
  {
    seq(|T|, k requires 0 <= k < |T| => Entry(T[k].i + offset, T[k].j, T[k].v))
  }

  /** The local classes of the ocean grid, and the classes of the global ice. */
  datatype Classes = Classes(indexingHC: Shape, hcdefs: seq<real>)

  ghost predicate ClassesOf(c: Classes, nO: nat)
  {
    |c.hcdefs| > 0 && ElevationIndexing(c.indexingHC, nO, |c.hcdefs|)
  }

  /** The local matrices as they are, and above them the global one, shifted past the local classes. */
  ghost predicate Stacked(useGlobal: bool, useLocal: bool, nO: nat, sheets: seq<Triplets>, local: Classes,
                          base: Triplets, global: Classes, ret: Merged)
    requires |global.indexingHC.extent| == 2
  {
    && ret.offsetE == (if useGlobal then nO * |local.hcdefs| else 0)
    && ret.hcdefs == (if useLocal then local.hcdefs else []) + (if useGlobal then global.hcdefs else [])
    && |ret.underice| == |ret.hcdefs|
    && (forall k :: 0 <= k < |ret.hcdefs| ==>
          ret.underice[k] == if useLocal && k < |local.hcdefs| then UI_LOCALICE else UI_GLOBALICE)
    && ret.EOpvAOp == (if useLocal then AllEntries(sheets, |sheets|) else [])
                    + (if useGlobal then Shifted(base, ret.offsetE) else [])
    && ret.indexingHC == ChangeNhc(global.indexingHC, |ret.hcdefs|)
  }

  /** compute_EOpvAOp_merged up to the squashing; sheets holds EvA of every local ice sheet, base the global EvA. */
  method MergeClasses(useGlobal: bool, useLocal: bool, nO: nat, sheets: seq<Triplets>, local: Classes, base: Triplets,
                      global: Classes) returns (ret: Merged)
    requires ClassesOf(local, nO) && ClassesOf(global, nO)
    ensures |global.indexingHC.extent| == 2
    ensures Stacked(useGlobal, useLocal, nO, sheets, local, base, global, ret)
  {
    hide ElevationIndexing;
    ExtentsOf(local, nO);
    ExtentsOf(global, nO);
    var M: Triplets, hcdefs: seq<real>, underice: seq<Underice>, offsetE := [], [], [], 0;
    if useLocal {
      for sheet := 0 to |sheets|
        invariant M == AllEntries(sheets, sheet)
      {
        for k := 0 to |sheets[sheet]|
          invariant M == AllEntries(sheets, sheet) + sheets[sheet][..k]
        {
          M := M + [sheets[sheet][k]];
        }
        assert sheets[sheet][..|sheets[sheet]|] == sheets[sheet];
      }
      hcdefs := hcdefs + local.hcdefs;
      underice := underice + seq(|local.hcdefs|, _ => UI_LOCALICE);
    }
    ghost var localM, localDefs := M, hcdefs;
    if useGlobal {
      offsetE := local.indexingHC.extent[0] * local.indexingHC.extent[1];
      for k := 0 to |base|
        invariant M == localM + Shifted(base, offsetE)[..k]
      {
        M := M + [Entry(base[k].i + offsetE, base[k].j, base[k].v)];
      }
      hcdefs := hcdefs + global.hcdefs;
      underice := underice + seq(|global.hcdefs|, _ => UI_GLOBALICE);
    }
    ret := Merged(M, hcdefs, underice, offsetE, ChangeNhc(global.indexingHC, |hcdefs|));
  }

  lemma ExtentsOf(c: Classes, nO: nat)
    requires ClassesOf(c, nO)
    ensures c.indexingHC.extent == [nO, |c.hcdefs|]
  {
  }

  /** In these indexings the elevation class has the largest stride. */
  ghost predicate LargestStride(c: Classes)
  {
    c.indexingHC.indices == [1, 0]
  }

  /** Local classes keep their numbers, and carry their own elevations. */
  lemma LocalClassStays(nO: nat, local: Classes, global: Classes, ret: Merged, o: nat, ihc: nat)
    requires ClassesOf(local, nO) && ClassesOf(global, nO) && LargestStride(local) && LargestStride(global)
    requires ret.hcdefs == local.hcdefs + global.hcdefs && ret.indexingHC == ChangeNhc(global.indexingHC, |ret.hcdefs|)
    requires o < nO && ihc < |local.hcdefs|
    ensures ElevationIndexing(ret.indexingHC, nO, |ret.hcdefs|)
    ensures ElevationIndex(ret.indexingHC, o, ihc) == ElevationIndex(local.indexingHC, o, ihc)
    ensures ret.hcdefs[ihc] == local.hcdefs[ihc]
  {
    hide Times, ElevationIndexing, ElevationIndex;
    ExtentsOf(global, nO);
    ChangedIndexing(global.indexingHC, nO, |global.hcdefs|, |ret.hcdefs|);
    LargestStrideIndex(ret.indexingHC, nO, |ret.hcdefs|, o, ihc);
    LargestStrideIndex(local.indexingHC, nO, |local.hcdefs|, o, ihc);
  }

  /** A stacked class is class nhc_local + ihc of its ocean cell, and carries the elevation it had in the global ice. */
  lemma StackedClass(nO: nat, local: Classes, global: Classes, ret: Merged, o: nat, ihc: nat)
    requires ClassesOf(local, nO) && ClassesOf(global, nO) && LargestStride(local) && LargestStride(global)
    requires ret.hcdefs == local.hcdefs + global.hcdefs && ret.indexingHC == ChangeNhc(global.indexingHC, |ret.hcdefs|)
    requires ret.offsetE == nO * |local.hcdefs| && o < nO && ihc < |global.hcdefs|
    ensures ElevationIndexing(ret.indexingHC, nO, |ret.hcdefs|)
    ensures ElevationIndex(global.indexingHC, o, ihc) + ret.offsetE
         == ElevationIndex(ret.indexingHC, o, |local.hcdefs| + ihc)
    ensures ret.hcdefs[|local.hcdefs| + ihc] == global.hcdefs[ihc]
  {
    hide Times, ElevationIndexing, ElevationIndex;
    ExtentsOf(global, nO);
    ChangedIndexing(global.indexingHC, nO, |global.hcdefs|, |ret.hcdefs|);
    LargestStrideIndex(ret.indexingHC, nO, |ret.hcdefs|, o, |local.hcdefs| + ihc);
    LargestStrideIndex(global.indexingHC, nO, |global.hcdefs|, o, ihc);
    TimesPlus(|local.hcdefs|, ihc, nO);
    TimesFacts(|local.hcdefs|, nO, 0);
    OffsetIsTimes(nO, |local.hcdefs|);
  }

  lemma OffsetIsTimes(a: nat, b: nat)
    ensures a * b == Times(a, b)
  {
  }

  /** Local and stacked classes never collide. */
  lemma ClassesDoNotCollide(nO: nat, local: Classes, global: Classes, ret: Merged, o: nat, ihc: nat, p: nat, jhc: nat)
    requires ClassesOf(local, nO) && ClassesOf(global, nO) && LargestStride(local) && LargestStride(global)
    requires ret.hcdefs == local.hcdefs + global.hcdefs && ret.indexingHC == ChangeNhc(global.indexingHC, |ret.hcdefs|)
    requires ret.offsetE == nO * |local.hcdefs| && o < nO && ihc < |local.hcdefs| && p < nO && jhc < |global.hcdefs|
    ensures ElevationIndex(local.indexingHC, o, ihc) != ElevationIndex(global.indexingHC, p, jhc) + ret.offsetE
  {
    hide Times, ElevationIndexing, ElevationIndex;
    LocalClassStays(nO, local, global, ret, o, ihc);
    StackedClass(nO, local, global, ret, p, jhc);
    IndexingIsValid(local.indexingHC, nO, |local.hcdefs|);
    IndexingIsValid(global.indexingHC, nO, |global.hcdefs|);
    if ElevationIndex(local.indexingHC, o, ihc) == ElevationIndex(global.indexingHC, p, jhc) + ret.offsetE {
      ElevationInjective(ret.indexingHC, nO, |ret.hcdefs|, o, ihc, p, |local.hcdefs| + jhc);
    }
  }

  /**
   With global ice alone the offset of the local classes is still added, so the last global class is numbered past
   the end of the merged elevation grid.
   */
  lemma GlobalAloneOverruns(nO: nat, local: Classes, global: Classes, ret: Merged, o: nat)
    requires ClassesOf(local, nO) && ClassesOf(global, nO) && LargestStride(global) && o < nO
    requires ret.hcdefs == global.hcdefs && ret.offsetE == nO * |local.hcdefs|
    ensures ElevationIndex(global.indexingHC, o, |global.hcdefs| - 1) + ret.offsetE >= nO * |ret.hcdefs|
  {
    hide Times, ElevationIndexing, ElevationIndex;
    var n, l := |global.hcdefs|, |local.hcdefs|;
    ExtentsOf(global, nO);
    IndexingIsValid(global.indexingHC, nO, n);
    LargestStrideIndex(global.indexingHC, nO, n, o, n - 1);
    TimesPlus(n - 1, 1, nO);
    TimesFacts(nO, n, 0);
    TimesFacts(nO, l, 0);
    OffsetIsTimes(nO, n);
    OffsetIsTimes(nO, l);
    Grows(l, nO);
  }

  lemma Grows(l: int, n: int)
    requires l >= 1 && n >= 0
    ensures Times(n, l) >= n
  {
    MulMonotone(1, l, n);
  }

  // ---------------------------------------------------------------- squashing

  /** The elements of xs, ascending and without repetition: what a std::set of them holds. */
  function SortedSet(xs: seq<real>): (r: seq<real>)
    ensures StrictlyAscending(r) && (forall x :: x in r <==> x in xs)
  {
    if |xs| == 0 then [] else InsertElement(SortedSet(xs[..|xs| - 1]), xs[|xs| - 1])
  }

  function InsertElement(s: seq<real>, x: real): (r: seq<real>)
    requires StrictlyAscending(s)
    ensures StrictlyAscending(r) && (forall z :: z in r <==> z in s || z == x)
  {
    if |s| == 0 then [x]
    else if x < s[0] then [x] + s
    else if x == s[0] then s
    else
      var t := InsertElement(s[1..], x);
      assert forall k :: 0 <= k < |t| ==> t[k] in t;
      assert s == [s[0]] + s[1..];
      [s[0]] + t
  }

  /** Position of x in an ascending list that contains it. */
  function ClassOf(hcdefs: seq<real>, x: real): (k: nat)
    requires StrictlyAscending(hcdefs) && x in hcdefs
    ensures k < |hcdefs| && hcdefs[k] == x && forall l :: 0 <= l < |hcdefs| && hcdefs[l] == x ==> l == k
  {
    if hcdefs[0] == x then 0
    else
      assert hcdefs == [hcdefs[0]] + hcdefs[1..];
      1 + ClassOf(hcdefs[1..], x)
  }

  /** Sum of the coefficients of column a at ocean cell o over the classes of elevation z. */
  ghost function ElevationSum(hc: Shape, nO: nat, hcdefs: seq<real>, T: Triplets, o: nat, z: real, a: nat): real
    requires ElevationIndexing(hc, nO, |hcdefs|) && o < nO
  {
    RangeSum(0, |hcdefs|, ClassTerm(hc, nO, hcdefs, T, o, z, a))
  }

  ghost function ClassTerm(hc: Shape, nO: nat, hcdefs: seq<real>, T: Triplets, o: nat, z: real, a: nat): int -> real
    requires ElevationIndexing(hc, nO, |hcdefs|) && o < nO
  {
    ihc => if 0 <= ihc < |hcdefs| && hcdefs[ihc] == z then ClassCoefficient(hc, nO, |hcdefs|, T, o, ihc, a) else 0.0
  }

  ghost function ClassCoefficient(hc: Shape, nO: nat, nhc: nat, T: Triplets, o: nat, ihc: nat, a: nat): real
    requires ElevationIndexing(hc, nO, nhc) && o < nO && ihc < nhc
  {
    ElevationRoundTrip(hc, nO, nhc, o, ihc);
    At(T, ElevationIndex(hc, o, ihc), a)
  }

  /** One more entry, for class h of ocean cell p, counts at its own cell, column and elevation. */
  lemma ElevationSumNext(hc: Shape, nO: nat, hcdefs: seq<real>, T: Triplets, e: Entry, p: nat, h: nat, o: nat,
                         z: real, a: nat)
    requires ElevationIndexing(hc, nO, |hcdefs|) && o < nO && p < nO && h < |hcdefs| && e.i == ElevationIndex(hc, p, h)
    ensures ElevationSum(hc, nO, hcdefs, T + [e], o, z, a)
         == ElevationSum(hc, nO, hcdefs, T, o, z, a) + if p == o && hcdefs[h] == z && e.j == a then e.v else 0.0
  {
    hide ElevationIndexing, ElevationIndex;
    IndexingIsValid(hc, nO, |hcdefs|);
    var d: int -> real := ihc => if ihc == h && p == o && hcdefs[h] == z && e.j == a then e.v else 0.0;
    var f, g := ClassTerm(hc, nO, hcdefs, T, o, z, a), ClassTerm(hc, nO, hcdefs, T + [e], o, z, a);
    assert (T + [e])[..|T|] == T;
    forall ihc | 0 <= ihc < |hcdefs| ensures g(ihc) == f(ihc) + d(ihc) {
      ElevationRoundTrip(hc, nO, |hcdefs|, o, ihc);
      if ElevationIndex(hc, o, ihc) == e.i {
        ElevationInjective(hc, nO, |hcdefs|, o, ihc, p, h);
      }
    }
    RangeSumPlus(0, |hcdefs|, f, d, g);
    RangeSumPick(0, |hcdefs|, d, h);
  }

  /** The tuples of both lists stand for the same ocean cell, elevation, column and value. */
  ghost predicate SquashedEntry(hc: Shape, hc1: Shape, nO: nat, hcdefs: seq<real>, hcdefs1: seq<real>, e: Entry,
                                e1: Entry)
    requires ElevationIndexing(hc, nO, |hcdefs|) && ElevationIndexing(hc1, nO, |hcdefs1|)
  {
    && e.j == e1.j && e.v == e1.v
    && exists o: nat, h: nat, h1: nat :: o < nO && h < |hcdefs| && h1 < |hcdefs1| && hcdefs[h] == hcdefs1[h1]
         && e.i == ElevationIndex(hc, o, h) && e1.i == ElevationIndex(hc1, o, h1)
  }

  ghost predicate Squashed(hc: Shape, hc1: Shape, nO: nat, hcdefs: seq<real>, hcdefs1: seq<real>, T: Triplets,
                           T1: Triplets)
    requires ElevationIndexing(hc, nO, |hcdefs|) && ElevationIndexing(hc1, nO, |hcdefs1|)
  {
    |T| == |T1| && forall k :: 0 <= k < |T| ==> SquashedEntry(hc, hc1, nO, hcdefs, hcdefs1, T[k], T1[k])
  }

  /** Squashing keeps, for every column, ocean cell and elevation, the summed value. */
  lemma {:induction false} SquashKeepsSums(hc: Shape, hc1: Shape, nO: nat, hcdefs: seq<real>, hcdefs1: seq<real>,
                                           T: Triplets, T1: Triplets, o: nat, z: real, a: nat)
    requires ElevationIndexing(hc, nO, |hcdefs|) && ElevationIndexing(hc1, nO, |hcdefs1|) && o < nO
    requires Squashed(hc, hc1, nO, hcdefs, hcdefs1, T, T1)
    ensures ElevationSum(hc, nO, hcdefs, T, o, z, a) == ElevationSum(hc1, nO, hcdefs1, T1, o, z, a)
  {
    hide ElevationIndexing, ElevationIndex, ElevationSum, SquashedEntry;
    if |T| == 0 {
      NothingSummed(hc, nO, hcdefs, o, z, a);
      NothingSummed(hc1, nO, hcdefs1, o, z, a);
    } else {
      var n := |T| - 1;
      assert T == T[..n] + [T[n]] && T1 == T1[..n] + [T1[n]];
      SquashKeepsSums(hc, hc1, nO, hcdefs, hcdefs1, T[..n], T1[..n], o, z, a);
      assert SquashedEntry(hc, hc1, nO, hcdefs, hcdefs1, T[n], T1[n]);
      LastSquashed(hc, hc1, nO, hcdefs, hcdefs1, T[..n], T1[..n], T[n], T1[n], o, z, a);
    }
  }

  lemma LastSquashed(hc: Shape, hc1: Shape, nO: nat, hcdefs: seq<real>, hcdefs1: seq<real>,
                     S: Triplets, S1: Triplets, e: Entry, e1: Entry, o: nat, z: real, a: nat)
    requires ElevationIndexing(hc, nO, |hcdefs|) && ElevationIndexing(hc1, nO, |hcdefs1|) && o < nO
    requires SquashedEntry(hc, hc1, nO, hcdefs, hcdefs1, e, e1)
    ensures ElevationSum(hc, nO, hcdefs, S + [e], o, z, a) - ElevationSum(hc, nO, hcdefs, S, o, z, a)
         == ElevationSum(hc1, nO, hcdefs1, S1 + [e1], o, z, a) - ElevationSum(hc1, nO, hcdefs1, S1, o, z, a)
  {
    hide ElevationIndexing, ElevationIndex, ElevationSum;
    IndexingIsValid(hc, nO, |hcdefs|);
    IndexingIsValid(hc1, nO, |hcdefs1|);
    var p: nat, h: nat, h1: nat :| p < nO && h < |hcdefs| && h1 < |hcdefs1| && hcdefs[h] == hcdefs1[h1]
         && e.i == ElevationIndex(hc, p, h) && e1.i == ElevationIndex(hc1, p, h1);
    ElevationSumNext(hc, nO, hcdefs, S, e, p, h, o, z, a);
    ElevationSumNext(hc1, nO, hcdefs1, S1, e1, p, h1, o, z, a);
  }

  lemma NothingSummed(hc: Shape, nO: nat, hcdefs: seq<real>, o: nat, z: real, a: nat)
    requires ElevationIndexing(hc, nO, |hcdefs|) && o < nO
    ensures ElevationSum(hc, nO, hcdefs, [], o, z, a) == 0.0
  {
    hide ElevationIndexing, ElevationIndex;
    ZeroRange(0, |hcdefs|);
    RangeSumSame(0, |hcdefs|, ClassTerm(hc, nO, hcdefs, [], o, z, a), _ => 0.0);
  }

  lemma SortedSetSize(xs: seq<real>)
    requires |xs| > 0
    ensures |SortedSet(xs)| > 0
  {
    assert xs[0] in SortedSet(xs);
  }

  /** squash_ECs: one class for every elevation, and every entry renumbered to the class of its elevation. */
  method SquashECs(EOpvAOp: Triplets, hcdefs: seq<real>, hc: Shape, nO: nat, nA: nat) returns (ret: Merged)
    requires |hcdefs| > 0 && ElevationIndexing(hc, nO, |hcdefs|) && InBounds(EOpvAOp, nO * |hcdefs|, nA)
    ensures StrictlyAscending(ret.hcdefs) && forall x :: x in ret.hcdefs <==> x in hcdefs
    ensures |ret.underice| == |ret.hcdefs| && forall k :: 0 <= k < |ret.underice| ==> ret.underice[k] == UI_GLOBALICE
    ensures ElevationIndexing(ret.indexingHC, nO, |ret.hcdefs|) && ret.indexingHC == ChangeNhc(hc, |ret.hcdefs|)
    ensures Squashed(hc, ret.indexingHC, nO, hcdefs, ret.hcdefs, EOpvAOp, ret.EOpvAOp)
  {
    hide ElevationIndex, SortedSet, Shape.Value, IsPermutation, SquashedEntry, ClassOf;
    var hcdefs1 := SortedSet(hcdefs);
    var nhc := |hcdefs1|;
    SortedSetSize(hcdefs);
    var hcdefsMap: map<real, nat> := map[];
    for i := 0 to nhc
      invariant forall x :: x in hcdefsMap <==> x in hcdefs1[..i]
      invariant forall x :: x in hcdefsMap ==> hcdefsMap[x] < nhc && hcdefs1[hcdefsMap[x]] == x
    {
      hcdefsMap := hcdefsMap[hcdefs1[i] := i];
    }
    assert hcdefs1[..nhc] == hcdefs1;
    var toNew: seq<nat> := [];
    for i := 0 to |hcdefs|
      invariant |toNew| == i && forall k :: 0 <= k < i ==> toNew[k] < nhc && hcdefs1[toNew[k]] == hcdefs[k]
    {
      assert hcdefs[i] in hcdefs1;
      toNew := toNew + [hcdefsMap[hcdefs[i]]];
    }
    ChangedIndexing(hc, nO, |hcdefs|, nhc);
    var hc1 := ChangeNhc(hc, nhc);
    var M := Renumber(EOpvAOp, hcdefs, hcdefs1, toNew, hc, hc1, nO, nA);
    ret := Merged(M, hcdefs1, seq(nhc, _ => UI_GLOBALICE), 0, hc1);
  }

  /** The loop of squash_ECs over the entries. */
  method Renumber(EOpvAOp: Triplets, hcdefs: seq<real>, hcdefs1: seq<real>, toNew: seq<nat>, hc: Shape, hc1: Shape,
                  nO: nat, nA: nat) returns (M: Triplets)
    requires ElevationIndexing(hc, nO, |hcdefs|) && ElevationIndexing(hc1, nO, |hcdefs1|)
    requires InBounds(EOpvAOp, nO * |hcdefs|, nA)
    requires |toNew| == |hcdefs| && forall k :: 0 <= k < |toNew| ==>
               toNew[k] < |hcdefs1| && hcdefs1[toNew[k]] == hcdefs[k]
    ensures Squashed(hc, hc1, nO, hcdefs, hcdefs1, EOpvAOp, M)
  {
    hide ElevationIndex, Shape.Value, IsPermutation, SquashedEntry;
    M := [];
    var indexing := new Indexer(hc.base, hc.extent, hc.indices);
    for k := 0 to |EOpvAOp|
      invariant indexing.Valid() && indexing.shape == hc && |M| == k
      invariant forall l :: 0 <= l < k ==> SquashedEntry(hc, hc1, nO, hcdefs, hcdefs1, EOpvAOp[l], M[l])
    {
      var e := EOpvAOp[k];
      var iTuple := indexing.IndexToTuple(e.i);
      TupleOf(hc, nO, |hcdefs|, e.i, iTuple);
      var o, h := iTuple[0], iTuple[1];
      var iE1 := TupleToIndex(hc1, o, toNew[h]);
      ElevationRoundTrip(hc1, nO, |hcdefs1|, o, toNew[h]);
      M := M + [Entry(iE1, e.j, e.v)];
      IsSquashed(hc, hc1, nO, hcdefs, hcdefs1, e, Entry(iE1, e.j, e.v), o, h, toNew[h]);
    }
  }

  lemma IsSquashed(hc: Shape, hc1: Shape, nO: nat, hcdefs: seq<real>, hcdefs1: seq<real>, e: Entry, e1: Entry,
                   o: nat, h: nat, h1: nat)
    requires ElevationIndexing(hc, nO, |hcdefs|) && ElevationIndexing(hc1, nO, |hcdefs1|)
    requires e.j == e1.j && e.v == e1.v && o < nO && h < |hcdefs| && h1 < |hcdefs1| && hcdefs[h] == hcdefs1[h1]
    requires e.i == ElevationIndex(hc, o, h) && e1.i == ElevationIndex(hc1, o, h1)
    ensures SquashedEntry(hc, hc1, nO, hcdefs, hcdefs1, e, e1)
  {
    hide ElevationIndex;
  }
}
