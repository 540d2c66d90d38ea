/**
 The regridding matrix AAmvEAm of mismatched ocean and atmosphere grids (slib/icebin/modele/topo.cpp): elevation
 classes on the atmosphere grid, seen by a climate model that rounds its ocean mask to 0 or 1, made from the
 matrix EOpvAOp of the ice model on the ocean grid.
 */
module TopoChain {
  import opened Wrappers
  import opened Vectors
  import opened Sparse
  import opened Indexing
  import opened ExchangeGrid
  import opened RegridMatrices

  /**
   parent and area give the atmosphere cell and the area of every ocean cell; hcO and hcA index (ocean cell, class)
   and (atmosphere cell, class).
   */
  datatype Chain = Chain(parent: seq<nat>, area: seq<real>, nA: nat, nhc: nat, hcO: Shape, hcA: Shape,
                         foceanAOp: seq<real>, foceanAOm: seq<real>, wAOp: seq<real>, dimAOp: seq<nat>,
                         EOpvAOp: Triplets) {

    function NO(): nat { |parent| }
    function NEO(): nat { |parent| * nhc }
    function NEA(): nat { nA * nhc }

    ghost predicate Valid()
    {
      && |area| == |foceanAOp| == |foceanAOm| == |wAOp| == NO()
      && (forall o :: 0 <= o < NO() ==> parent[o] < nA && area[o] > 0.0)
      && ElevationIndexing(hcO, NO(), nhc) && ElevationIndexing(hcA, nA, nhc)
      && (forall k :: 0 <= k < |dimAOp| ==> dimAOp[k] < NO())
      && (forall j, k :: 0 <= j < k < |dimAOp| ==> dimAOp[j] != dimAOp[k])
      && InBounds(EOpvAOp, NEO(), NO())
    }

    ghost function EO(o: nat, ihc: nat): int
      requires Valid()
    {
      ElevationIndex(hcO, o, ihc)
    }

    ghost function EA(a: nat, ihc: nat): int
      requires Valid()
    {
      ElevationIndex(hcA, a, ihc)
    }

    /** The climate model's ocean mask is 0 or 1 wherever the ice model has ice. */
    ghost predicate Rounded()
      requires Valid()
    {
      forall o :: o in dimAOp ==> foceanAOm[o] == 0.0 || foceanAOm[o] == 1.0
    }
  }

  // ---------------------------------------------------------------- ocean cells

  /** The ice-bearing ocean cells that the climate model takes for land, in the order of dimAOp. */
  ghost function LandCells(dim: seq<nat>, foceanAOm: seq<real>): (r: seq<nat>)
    requires forall k :: 0 <= k < |dim| ==> dim[k] < |foceanAOm|
    ensures forall o :: o in r <==> o in dim && foceanAOm[o] == 0.0
  {
    if |dim| == 0 then []
    else
      var o := dim[|dim| - 1];
      LandCells(dim[..|dim| - 1], foceanAOm) + if foceanAOm[o] == 0.0 then [o] else []
  }

  ghost function DimAOm(c: Chain): seq<nat>
    requires c.Valid()
  {
    LandCells(c.dimAOp, c.foceanAOm)
  }

  /** The entries that scaled_AOmvAOp stores for the first n ice-bearing cells. */
  ghost function ScaledAOmvAOp(c: Chain, n: nat): Triplets
    requires c.Valid() && n <= |c.dimAOp|
  {
    if n == 0 then []
    else
      var o := c.dimAOp[n - 1];
      var fcontP := 1.0 - c.foceanAOp[o];
      ScaledAOmvAOp(c, n - 1)
      + if c.foceanAOm[o] == 0.0 && fcontP != 0.0 then [Entry(o, o, 1.0 / fcontP)] else []
  }

  /** scaled_AOmvAOp for the default sign; None where the source stops because the mask is not rounded. */
  method ComputeScaledAOmvAOp(c: Chain) returns (ret: Option<Triplets>)
    requires c.Valid()
    ensures ret.Some? <==> c.Rounded()
    ensures ret.Some? ==> ret.value == ScaledAOmvAOp(c, |c.dimAOp|)
  {
    var m: Triplets := [];
    for iAOp := 0 to |c.dimAOp|
      invariant forall k :: 0 <= k < iAOp ==> c.foceanAOm[c.dimAOp[k]] == 0.0 || c.foceanAOm[c.dimAOp[k]] == 1.0
      invariant m == ScaledAOmvAOp(c, iAOp)
    {
      var iAO := c.dimAOp[iAOp];
      var fcontP := 1.0 - c.foceanAOp[iAO];
      var fcontM := 1.0 - c.foceanAOm[iAO];
      if fcontM == 0.0 { continue; }
      if fcontM != 1.0 {
        return None;
      }
      if fcontP == 0.0 { continue; }
      m := m + [Entry(iAO, iAO, 1.0 / fcontP)];
    }
    ret := Some(m);
  }

  /** The loop of compute_wAOm that fills dimAOm. */
  method ComputeDimAOm(c: Chain) returns (dimAOm: seq<nat>)
    requires c.Valid()
    ensures dimAOm == DimAOm(c)
  {
    dimAOm := [];
    for k := 0 to |c.dimAOp|
      invariant dimAOm == LandCells(c.dimAOp[..k], c.foceanAOm)
    {
      assert c.dimAOp[..k + 1][..k] == c.dimAOp[..k];
      if c.foceanAOm[c.dimAOp[k]] == 0.0 {
        dimAOm := dimAOm + [c.dimAOp[k]];
      }
    }
    assert c.dimAOp[..|c.dimAOp|] == c.dimAOp;
  }

  lemma {:induction false} ScaledInBounds(c: Chain, n: nat)
    requires c.Valid() && n <= |c.dimAOp|
    ensures InBounds(ScaledAOmvAOp(c, n), c.NO(), c.NO())
  {
    if n > 0 { ScaledInBounds(c, n - 1); }
  }

  /** wAOm, the weights of the ocean cells in the climate model's eyes. */
  ghost function WAOm(c: Chain): (w: seq<real>)
    requires c.Valid()
    ensures |w| == c.NO()
  {
    ScaledInBounds(c, |c.dimAOp|);
    Apply(ScaledAOmvAOp(c, |c.dimAOp|), c.wAOp, c.NO())
  }

  lemma ScaledStep(c: Chain, n: nat)
    requires c.Valid() && 0 < n <= |c.dimAOp|
    ensures InBounds(ScaledAOmvAOp(c, n - 1), c.NO(), c.NO()) && InBounds(ScaledAOmvAOp(c, n), c.NO(), c.NO())
    ensures var o, before := c.dimAOp[n - 1], Apply(ScaledAOmvAOp(c, n - 1), c.wAOp, c.NO());
            o < |before| && Apply(ScaledAOmvAOp(c, n), c.wAOp, c.NO())
              == if c.foceanAOm[o] == 0.0 && c.foceanAOp[o] != 1.0
                 then before[o := before[o] + Prod(1.0 / (1.0 - c.foceanAOp[o]), c.wAOp[o])] else before
  {
    hide Prod, ElevationIndexing, Apply;
    ScaledInBounds(c, n);
    ScaledInBounds(c, n - 1);
    var o := c.dimAOp[n - 1];
    if c.foceanAOm[o] == 0.0 && 1.0 - c.foceanAOp[o] != 0.0 {
      ApplyAppend(ScaledAOmvAOp(c, n - 1), Entry(o, o, 1.0 / (1.0 - c.foceanAOp[o])), c.wAOp, c.NO());
    } else {
      assert ScaledAOmvAOp(c, n) == ScaledAOmvAOp(c, n - 1);
    }
  }

  lemma {:induction false} ScaledAt(c: Chain, n: nat, o: nat)
    requires c.Valid() && n <= |c.dimAOp| && o < c.NO()
    ensures InBounds(ScaledAOmvAOp(c, n), c.NO(), c.NO())
    ensures Apply(ScaledAOmvAOp(c, n), c.wAOp, c.NO())[o]
         == if o in c.dimAOp[..n] && c.foceanAOm[o] == 0.0 && c.foceanAOp[o] != 1.0
            then Prod(1.0 / (1.0 - c.foceanAOp[o]), c.wAOp[o]) else 0.0
  {
    hide Prod, ElevationIndexing, ScaledAOmvAOp;
    ScaledInBounds(c, n);
    if n > 0 {
      ScaledAt(c, n - 1, o);
      ScaledStep(c, n);
      assert c.dimAOp[..n] == c.dimAOp[..n - 1] + [c.dimAOp[n - 1]];
    } else {
      assert ScaledAOmvAOp(c, 0) == [] by { NothingScaled(c); }
    }
  }

  lemma NothingScaled(c: Chain)
    requires c.Valid()
    ensures ScaledAOmvAOp(c, 0) == []
  {
  }

  /** A cell that the climate model takes for land but the ice model for open ocean gets no weight. */
  lemma WAOmAt(c: Chain, o: nat)
    requires c.Valid() && o < c.NO()
    ensures WAOm(c)[o] == if o in DimAOm(c) && c.foceanAOp[o] != 1.0
                          then Prod(1.0 / (1.0 - c.foceanAOp[o]), c.wAOp[o]) else 0.0
  {
    hide Prod, ScaledAOmvAOp, ElevationIndexing;
    ScaledAt(c, |c.dimAOp|, o);
    assert c.dimAOp[..|c.dimAOp|] == c.dimAOp;
  }

  // ---------------------------------------------------------------- the factors of the chain

  /** AOvAA of Hntr for nested grids: every included ocean cell lies, with its whole area, in its parent. */
  function Overlap(c: Chain, dim: seq<nat>, n: nat): Triplets
    requires c.Valid() && n <= c.NO()
  {
    if n == 0 then []
    else Overlap(c, dim, n - 1) + if n - 1 in dim then [Entry(n - 1, c.parent[n - 1], c.area[n - 1])] else []
  }

  /** EOmvAOm: the entries of EOpvAOp in columns that are land to the climate model. */
  ghost function KeepColumns(T: Triplets, dim: seq<nat>): Triplets
  {
    if |T| == 0 then []
    else KeepColumns(T[..|T| - 1], dim) + if T[|T| - 1].j in dim then [T[|T| - 1]] else []
  }

  /** compute_EOmvAOm_unscaled; dimEOm collects the elevation cells that are left. */
  method ComputeEOmvAOm(EOpvAOp: Triplets, dimAOm: seq<nat>) returns (EOmvAOm: Triplets, dimEOm: seq<nat>)
    ensures EOmvAOm == KeepColumns(EOpvAOp, dimAOm)
    ensures forall e :: e in dimEOm <==> exists k :: 0 <= k < |EOmvAOm| && EOmvAOm[k].i == e
  {
    EOmvAOm, dimEOm := [], [];
    for k := 0 to |EOpvAOp|
      invariant EOmvAOm == KeepColumns(EOpvAOp[..k], dimAOm)
      invariant forall e :: e in dimEOm <==> exists l :: 0 <= l < |EOmvAOm| && EOmvAOm[l].i == e
    {
      var t := EOpvAOp[k];
      assert EOpvAOp[..k + 1][..k] == EOpvAOp[..k];
      if t.j in dimAOm {
        ghost var before := EOmvAOm;
        EOmvAOm := EOmvAOm + [t];
        assert EOmvAOm[|before|].i == t.i;
        assert forall l :: 0 <= l < |before| ==> EOmvAOm[l] == before[l];
        if t.i !in dimEOm {
          dimEOm := dimEOm + [t.i];
        }
      }
    }
    assert EOpvAOp[..|EOpvAOp|] == EOpvAOp;
  }

  /** What RawEOvEA.add stores for ocean cell o in atmosphere cell a, for the first n classes. */
  ghost function RawEntries(c: Chain, wEO: seq<real>, o: nat, a: nat, n: nat): Triplets
    requires c.Valid() && |wEO| == c.NEO() && o < c.NO() && a < c.nA && n <= c.nhc
  {
    if n == 0 then []
    else
      ElevationRoundTrip(c.hcO, c.NO(), c.nhc, o, n - 1);
      ElevationRoundTrip(c.hcA, c.nA, c.nhc, a, n - 1);
      RawEntries(c, wEO, o, a, n - 1)
      + if wEO[c.EO(o, n - 1)] != 0.0 then [Entry(c.EO(o, n - 1), c.EA(a, n - 1), wEO[c.EO(o, n - 1)])] else []
  }

  /** Everything that RawEOvEA collects over the overlaps. */
  ghost function EOvEA(c: Chain, wEO: seq<real>, overlap: Triplets): Triplets
    requires c.Valid() && |wEO| == c.NEO() && InBounds(overlap, c.NO(), c.nA)
  {
    if |overlap| == 0 then []
    else
      var e := overlap[|overlap| - 1];
      EOvEA(c, wEO, overlap[..|overlap| - 1]) + RawEntries(c, wEO, e.i, e.j, c.nhc)
  }

  const STRAY := 0.00000001

  /** An overlap too small to be real. */
  predicate Stray(value: real)
  {
    -STRAY < value < STRAY
  }

  /** The accumulator that Hntr feeds with overlaps; classes without weight are skipped. */
  class RawEOvEA {
    const c: Chain
    const wEO: seq<real>
    const dimEO: seq<nat>
    var ret: Triplets

    constructor (c: Chain, wEO: seq<real>, dimEO: seq<nat>)
      ensures this.c == c && this.wEO == wEO && this.dimEO == dimEO && ret == []
    {
      this.c, this.wEO, this.dimEO, ret := c, wEO, dimEO, [];
    }

    /** Cells outside dimEO have no weight. */
    ghost predicate Valid()
    {
      c.Valid() && |wEO| == c.NEO() && forall e :: 0 <= e < |wEO| && e !in dimEO ==> wEO[e] == 0.0
    }

    /** Takes an overlap of an ocean cell with an atmosphere cell; false where the source stops at a stray overlap. */
    method Add(lAO: nat, lAA: nat, value: real) returns (ok: bool)
      requires Valid() && lAO < c.NO() && lAA < c.nA
      modifies this
      ensures ok <==> !Stray(value)
      ensures ok <==> value <= -0.00000001 || 0.00000001 <= value
      ensures ret == if ok then old(ret) + RawEntries(c, wEO, lAO, lAA, c.nhc) else old(ret)
    {
      hide ElevationIndexing, Shape.Valid;
      if Stray(value) {
        return false;
      }
      ok := true;
      for ihc := 0 to c.nhc
        invariant ret == old(ret) + RawEntries(c, wEO, lAO, lAA, ihc)
      {
        ElevationRoundTrip(c.hcO, c.NO(), c.nhc, lAO, ihc);
        ElevationRoundTrip(c.hcA, c.nA, c.nhc, lAA, ihc);
        HcShape(c);
        var lEO := TupleToIndex(c.hcO, lAO, ihc);
        if lEO !in dimEO { continue; }
        var weightEO := wEO[lEO];
        if weightEO != 0.0 {
          var lEA := TupleToIndex(c.hcA, lAA, ihc);
          ret := ret + [Entry(lEO, lEA, weightEO)];
        }
      }
    }
  }

  lemma HcShape(c: Chain)
    requires c.Valid()
    ensures c.hcO.Valid() && c.hcO.Rank() == 2 && c.hcO.base == [0, 0]
    ensures c.hcA.Valid() && c.hcA.Rank() == 2 && c.hcA.base == [0, 0]
  {
  }

  // ---------------------------------------------------------------- the chain

  /** diag(1 / row sums) T */
  function Normalized(T: Triplets, m: nat, n: nat): (r: Triplets)
    requires InBounds(T, m, n)
    ensures InBounds(r, m, n)
  {
    ScaleRows(Inverse(RowSums(T, m, n)), T)
  }

  /** T diag(1 / column sums) w: hands the weight of every column on to the rows. */
  function HandOn(T: Triplets, m: nat, w: seq<real>): (r: seq<real>)
    requires InBounds(T, m, |w|)
    ensures |r| == m
  {
    var d := Inverse(ColSums(T, m, |w|));
    Apply(T, Hadamard(d, w), m)
  }

  /** The factors that _compute_AAmvEAm_EIGEN multiplies together. */
  datatype Factors = Factors(AAmvAOm: Triplets, EOmvAOm: Triplets, EOmvEAm: Triplets,
                             wAOm: seq<real>, wEOm: seq<real>, wAAm: seq<real>, wEAm: seq<real>)

  lemma {:induction false} OverlapEntries(c: Chain, dim: seq<nat>, n: nat)
    requires c.Valid() && n <= c.NO()
    ensures forall e :: e in Overlap(c, dim, n) ==>
              e.i < n && e.i in dim && e.j == c.parent[e.i] && e.v == c.area[e.i]
    ensures forall o: nat :: o < n && o in dim ==> Entry(o, c.parent[o], c.area[o]) in Overlap(c, dim, n)
  {
    hide ElevationIndexing;
    if n > 0 { OverlapEntries(c, dim, n - 1); }
  }

  lemma OverlapInBounds(c: Chain, dim: seq<nat>)
    requires c.Valid()
    ensures InBounds(Overlap(c, dim, c.NO()), c.NO(), c.nA)
  {
    hide ElevationIndexing, Overlap;
    OverlapEntries(c, dim, c.NO());
    var T := Overlap(c, dim, c.NO());
    forall k | 0 <= k < |T| ensures T[k].i < c.NO() && T[k].j < c.nA {
      assert T[k] in T;
    }
  }

  lemma {:induction false} KeepEntries(T: Triplets, dim: seq<nat>)
    ensures forall e :: e in KeepColumns(T, dim) <==> e in T && e.j in dim
  {
    if |T| > 0 {
      KeepEntries(T[..|T| - 1], dim);
      assert T == T[..|T| - 1] + [T[|T| - 1]];
    }
  }

  lemma KeepInBounds(T: Triplets, dim: seq<nat>, m: nat, n: nat)
    requires InBounds(T, m, n)
    ensures InBounds(KeepColumns(T, dim), m, n)
  {
    hide KeepColumns;
    KeepEntries(T, dim);
    var S := KeepColumns(T, dim);
    forall k | 0 <= k < |S| ensures S[k].i < m && S[k].j < n {
      assert S[k] in T;
    }
  }

  /** The entries that one overlap leads to. */
  lemma {:induction false} RawEntriesAre(c: Chain, wEO: seq<real>, o: nat, a: nat, n: nat)
    requires c.Valid() && |wEO| == c.NEO() && o < c.NO() && a < c.nA && n <= c.nhc
    ensures forall e :: e in RawEntries(c, wEO, o, a, n) ==> IsRawEntry(c, wEO, o, a, e)
    ensures forall ihc: nat :: ihc < n && HasWeight(c, wEO, o, ihc) ==>
              exists e :: e in RawEntries(c, wEO, o, a, n) && e.i == c.EO(o, ihc)
  {
    hide ElevationIndexing, ElevationIndex, Chain.Valid;
    if n > 0 {
      RawEntriesAre(c, wEO, o, a, n - 1);
      IndexingOf(c);
      ElevationRoundTrip(c.hcO, c.NO(), c.nhc, o, n - 1);
      ElevationRoundTrip(c.hcA, c.nA, c.nhc, a, n - 1);
      var last := Entry(c.EO(o, n - 1), c.EA(a, n - 1), wEO[c.EO(o, n - 1)]);
      assert wEO[c.EO(o, n - 1)] != 0.0 ==> IsRawEntry(c, wEO, o, a, last) && last in RawEntries(c, wEO, o, a, n);
      assert forall e :: e in RawEntries(c, wEO, o, a, n - 1) ==> e in RawEntries(c, wEO, o, a, n);
    }
  }

  lemma IndexingOf(c: Chain)
    requires c.Valid()
    ensures ElevationIndexing(c.hcO, c.NO(), c.nhc) && ElevationIndexing(c.hcA, c.nA, c.nhc)
  {
  }

  /** e joins one class of an ocean cell with the same class of an atmosphere cell, weighted by the former. */
  ghost predicate IsRawEntry(c: Chain, wEO: seq<real>, o: nat, a: nat, e: Entry)
    requires c.Valid() && |wEO| == c.NEO()
  {
    && e.i < c.NEO() && e.v == wEO[e.i] && e.v != 0.0
    && exists ihc: nat :: ihc < c.nhc && e.i == c.EO(o, ihc) && e.j == c.EA(a, ihc)
  }

  ghost predicate HasWeight(c: Chain, wEO: seq<real>, o: nat, ihc: nat)
    requires c.Valid() && |wEO| == c.NEO()
  {
    0 <= c.EO(o, ihc) < c.NEO() && wEO[c.EO(o, ihc)] != 0.0
  }

  lemma {:induction false} EOvEAEntries(c: Chain, wEO: seq<real>, overlap: Triplets)
    requires c.Valid() && |wEO| == c.NEO() && InBounds(overlap, c.NO(), c.nA)
    ensures forall e :: e in EOvEA(c, wEO, overlap) ==> exists t :: t in overlap && IsRawEntry(c, wEO, t.i, t.j, e)
    ensures forall t, ihc: nat :: t in overlap && ihc < c.nhc && HasWeight(c, wEO, t.i, ihc) ==>
              exists e :: e in EOvEA(c, wEO, overlap) && e.i == c.EO(t.i, ihc)
  {
    hide ElevationIndexing, ElevationIndex, Chain.Valid, RawEntries, IsRawEntry;
    if |overlap| > 0 {
      var rest, t := overlap[..|overlap| - 1], overlap[|overlap| - 1];
      EOvEAEntries(c, wEO, rest);
      RawEntriesAre(c, wEO, t.i, t.j, c.nhc);
      assert overlap == rest + [t];
      assert EOvEA(c, wEO, overlap) == EOvEA(c, wEO, rest) + RawEntries(c, wEO, t.i, t.j, c.nhc);
    }
  }

  lemma EOvEAInBounds(c: Chain, wEO: seq<real>, overlap: Triplets)
    requires c.Valid() && |wEO| == c.NEO() && InBounds(overlap, c.NO(), c.nA)
    ensures InBounds(EOvEA(c, wEO, overlap), c.NEO(), c.NEA())
  {
    hide ElevationIndexing, ElevationIndex, Chain.Valid, EOvEA;
    EOvEAEntries(c, wEO, overlap);
    var T := EOvEA(c, wEO, overlap);
    forall k | 0 <= k < |T| ensures T[k].i < c.NEO() && T[k].j < c.NEA() {
      assert T[k] in T;
      var t :| t in overlap && IsRawEntry(c, wEO, t.i, t.j, T[k]);
      assert t.j < c.nA;
      var ihc: nat :| ihc < c.nhc && T[k].i == c.EO(t.i, ihc) && T[k].j == c.EA(t.j, ihc);
      IndexingOf(c);
      ElevationRoundTrip(c.hcA, c.nA, c.nhc, t.j, ihc);
    }
  }

  /** The factors and the weights that go with them, before anything is multiplied out. */
  ghost function ChainFactors(c: Chain): (f: Factors)
    requires c.Valid()
    ensures FactorsFit(c, f)
  {
    var dim := DimAOm(c);
    OverlapInBounds(c, dim);
    KeepInBounds(c.EOpvAOp, dim, c.NEO(), c.NO());
    var overlap := Overlap(c, dim, c.NO());
    var AAmvAOm, EOmvAOm, wAOm := Transpose(overlap), KeepColumns(c.EOpvAOp, dim), WAOm(c);
    var wEOm := HandOn(EOmvAOm, c.NEO(), wAOm);
    EOvEAInBounds(c, wEOm, overlap);
    var EOmvEAm := EOvEA(c, wEOm, overlap);
    Factors(AAmvAOm, EOmvAOm, EOmvEAm, wAOm, wEOm, HandOn(AAmvAOm, c.nA, wAOm),
            HandOn(Transpose(EOmvEAm), c.NEA(), wEOm))
  }

  ghost predicate FactorsFit(c: Chain, f: Factors)
  {
    && InBounds(f.AAmvAOm, c.nA, c.NO()) && InBounds(f.EOmvAOm, c.NEO(), c.NO())
    && InBounds(f.EOmvEAm, c.NEO(), c.NEA())
    && |f.wAOm| == c.NO() && |f.wEOm| == c.NEO() && |f.wAAm| == c.nA && |f.wEAm| == c.NEA()
  }

  /** Atmosphere cells by elevation cells: ocean cells, their classes, and the same classes of the atmosphere cell. */
  function ChainMatrix(c: Chain, f: Factors, scale: bool): Triplets
    requires FactorsFit(c, f)
  {
    var sAAmvAOm := Inverse(RowSums(f.AAmvAOm, c.nA, c.NO()));
    Mul(ScaleRows(if scale then sAAmvAOm else Hadamard(f.wAAm, sAAmvAOm), f.AAmvAOm),
        Mul(Normalized(Transpose(f.EOmvAOm), c.NO(), c.NEO()), Normalized(f.EOmvEAm, c.NEO(), c.NEA())))
  }

  ghost predicate NoStray(overlap: Triplets)
  {
    forall k :: 0 <= k < |overlap| ==> !Stray(overlap[k].v)
  }

  /** Feeds the overlaps to RawEOvEA one by one; None where it stops. */
  method CollectEOvEA(c: Chain, wEOm: seq<real>, dimEOm: seq<nat>, overlap: Triplets) returns (ret: Option<Triplets>)
    requires c.Valid() && |wEOm| == c.NEO() && InBounds(overlap, c.NO(), c.nA)
    requires forall e :: 0 <= e < |wEOm| && e !in dimEOm ==> wEOm[e] == 0.0
    ensures ret.Some? <==> NoStray(overlap)
    ensures ret.Some? ==> ret.value == EOvEA(c, wEOm, overlap)
  {
    hide ElevationIndexing, Chain.Valid, Chain.NEO, RawEntries, Stray;
    var raw := new RawEOvEA(c, wEOm, dimEOm);
    for k := 0 to |overlap|
      invariant raw.ret == EOvEA(c, wEOm, overlap[..k])
      invariant forall l :: 0 <= l < k ==> !Stray(overlap[l].v)
    {
      assert overlap[..k + 1][..k] == overlap[..k];
      var ok := raw.Add(overlap[k].i, overlap[k].j, overlap[k].v);
      if !ok {
        return None;
      }
    }
    assert overlap[..|overlap|] == overlap;
    ret := Some(raw.ret);
  }

  /**
   _compute_AAmvEAm_EIGEN; None where the source stops because the climate model's mask is not rounded or an overlap
   is stray.
   */
  method ComputeAAmvEAm(c: Chain, scale: bool) returns (AAmvEAm: Option<Weighted>)
    requires c.Valid()
    ensures AAmvEAm.Some? <==> c.Rounded() && NoStray(Overlap(c, DimAOm(c), c.NO()))
    ensures AAmvEAm.Some? ==> var f := ChainFactors(c);
              AAmvEAm.value == Weighted(f.wAAm, ChainMatrix(c, f, scale), f.wEAm)
  {
    hide ElevationIndexing, Chain.Valid, Chain.NEO, Chain.NEA, Chain.Rounded, DimAOm, NoStray, Overlap, EOvEA, Apply,
      KeepColumns, ChainMatrix, HandOn, ScaledAOmvAOp;
    var dimAOm := ComputeDimAOm(c);
    var scAOmvAOp := ComputeScaledAOmvAOp(c);
    if scAOmvAOp == None {
      return None;
    }
    ScaledInBounds(c, |c.dimAOp|);
    SizesOf(c);
    var wAOm := Apply(scAOmvAOp.value, c.wAOp, c.NO());
    OverlapInBounds(c, dimAOm);
    KeepInBounds(c.EOpvAOp, dimAOm, c.NEO(), c.NO());
    var AOmvAAm := Overlap(c, dimAOm, c.NO());
    var AAmvAOm := Transpose(AOmvAAm);
    var wAAm := HandOn(AAmvAOm, c.nA, wAOm);
    var EOmvAOm, dimEOm := ComputeEOmvAOm(c.EOpvAOp, dimAOm);
    var wEOm := HandOn(EOmvAOm, c.NEO(), wAOm);
    NoRowNoWeight(EOmvAOm, c.NEO(), wAOm);
    var EOmvEAm := CollectEOvEA(c, wEOm, dimEOm, AOmvAAm);
    if EOmvEAm == None {
      return None;
    }
    EOvEAInBounds(c, wEOm, AOmvAAm);
    var wEAm := HandOn(Transpose(EOmvEAm.value), c.NEA(), wEOm);
    var f := Factors(AAmvAOm, EOmvAOm, EOmvEAm.value, wAOm, wEOm, wAAm, wEAm);
    AAmvEAm := Some(Weighted(wAAm, ChainMatrix(c, f, scale), wEAm));
  }

  lemma SizesOf(c: Chain)
    requires c.Valid()
    ensures |c.wAOp| == c.NO() && InBounds(c.EOpvAOp, c.NEO(), c.NO())
  {
  }

  lemma NoRowNoWeight(T: Triplets, m: nat, w: seq<real>)
    requires InBounds(T, m, |w|)
    ensures forall i :: 0 <= i < m && (forall k :: 0 <= k < |T| ==> T[k].i != i) ==> HandOn(T, m, w)[i] == 0.0
  {
    hide Prod, Apply, ColSums;
    var x := Hadamard(Inverse(ColSums(T, m, |w|)), w);
    forall i | 0 <= i < m && (forall k :: 0 <= k < |T| ==> T[k].i != i) ensures HandOn(T, m, w)[i] == 0.0 {
      ApplyRowConstant(T, x, m, i, 0.0);
      ProdConst(RowSums(T, m, |x|)[i]);
    }
  }
}
