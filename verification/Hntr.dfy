/**
 The latitude/longitude regridder (slib/icebin/modele/hntr.cpp, hntr.hpp).
 */
module Hntr {
  import opened Vectors
  import opened Sums
  import opened Sweeps
  import opened HntrSweeps
  import opened HntrIntegrals
  import opened HntrOverlap
  import opened HntrPolar
  import opened Ints
  import opened Sparse

  /** RegridAccum: weight and value of one B cell, and the output array. */
  class RegridAccum {
    const wta: seq<real>
    const a: seq<real>
    const b: array<real>
    const datmis: real
    const wtm: real
    const wtb: real
    var weight: real
    var value: real

    constructor (wta: seq<real>, a: seq<real>, b: array<real>, datmis: real, wtm: real, wtb: real)
      ensures this.wta == wta && this.a == a && this.b == b && this.datmis == datmis
      ensures this.wtm == wtm && this.wtb == wtb
    {
      this.wta, this.a, this.b, this.datmis, this.wtm, this.wtb := wta, a, b, datmis, wtm, wtb;
      weight, value := 0.0, 0.0;
    }

    method Clear()
      modifies this
      ensures weight == 0.0 && value == 0.0
    {
      value := 0.0;
      weight := 0.0;
    }

    method AddA(ija: int, fg: real)
      requires 1 <= ija <= |wta| == |a|
      modifies this
      ensures weight == old(weight) + Prod(fg, CellWeight(wtm, wtb, wta, ija))
      ensures value == old(value) + Prod(fg, CellValue(wtm, wtb, wta, a, ija))
    {
      hide Prod;
      var w := Prod(wtm, wta[ija - 1]) + wtb;
      var wt := Prod(fg, w);
      weight := weight + wt;
      value := value + Prod(wt, a[ija - 1]);
      ProdAssoc(fg, w, a[ija - 1]);
    }

    method FinishB(ijb: int)
      requires 1 <= ijb <= b.Length
      modifies b
      ensures b[..] == old(b[..])[ijb - 1 := Mean(weight, value, datmis)]
    {
      b[ijb - 1] := if weight == 0.0 then datmis else value / weight;
    }
  }

  /** OverlapMatAccum and ScaledRegridMatAccum; the latter is the case where every area is 1. */
  class MatAccum {
    const area: seq<real>
    var bvals: seq<Part>
    var weight: real
    var accum: Triplets

    constructor (area: seq<real>)
      ensures this.area == area && accum == [] && weight == 0.0 && bvals == []
    {
      this.area := area;
      bvals, weight, accum := [], 0.0, [];
    }

    method Clear()
      modifies this
      ensures bvals == [] && weight == 0.0 && accum == old(accum)
    {
      bvals := [];
      weight := 0.0;
    }

    method AddA(ija: int, fg: real)
      modifies this
      ensures weight == old(weight) + fg && bvals == old(bvals) + [(Index(ija), fg)] && accum == old(accum)
    {
      weight := weight + fg;
      bvals := bvals + [(Index(ija), fg)];
    }

    method FinishB(ijb: int, jb: int)
      requires weight != 0.0 && 0 <= jb < |area|
      modifies this
      ensures weight == old(weight) && bvals == old(bvals)
      ensures accum == old(accum) + Emit(bvals, weight, area[jb], Index(ijb))
    {
      hide Prod;
      var byWeight := 1.0 / weight;
      ghost var done: Triplets := [];
      for ii := 0 to |bvals|
        invariant weight == old(weight) && bvals == old(bvals)
        invariant done == Emit(bvals[..ii], weight, area[jb], Index(ijb)) && accum == old(accum) + done
      {
        var val := Prod(Prod(bvals[ii].1, byWeight), area[jb]);
        accum := accum + [Entry(Index(ijb), bvals[ii].0, val)];
        done := done + [Entry(Index(ijb), bvals[ii].0, val)];
        assert bvals[..ii + 1][..ii] == bvals[..ii];
      }
      assert bvals[..|bvals|] == bvals;
    }
  }

  class Hntr {
    const agrid: HntrSpec
    const bgrid: HntrSpec
    const sina: array<real>
    const sinb: array<real>
    const fmin: array<real>
    const fmax: array<real>
    const imin: array<int>
    const imax: array<int>
    const gmin: array<real>
    const gmax: array<real>
    const jmin: array<int>
    const jmax: array<int>
    const datmis: real

    ghost predicate Allocated()
    {
      && agrid.Valid() && bgrid.Valid()
      && sina.Length == agrid.jm + 1 && sinb.Length == bgrid.jm + 1
      && fmin.Length == fmax.Length == imin.Length == imax.Length == bgrid.im + 1
      && gmin.Length == gmax.Length == jmin.Length == jmax.Length == bgrid.jm + 1
      && imin != imax && jmin != jmax && imin != jmin && imin != jmax && imax != jmin && imax != jmax
      && sina != sinb && fmin != fmax && gmin != gmax
      && {sina, sinb} !! {fmin, fmax, gmin, gmax} && {fmin, fmax} !! {gmin, gmax}
    }

    ghost function EastWest(): Sweep
      reads imin, imax, fmin, fmax
    {
      Sweep(imin[..], imax[..], fmin[..], fmax[..])
    }

    /** Moves east to the first A edge that is not west of rib. */
    method Advance(ia0: int, ria0: real, rib: real) returns (ia: int, ria: real)
      requires Allocated() && ria0 == EdgeA(agrid, bgrid, ia0)
      ensures ia0 <= ia && ria == EdgeA(agrid, bgrid, ia) && rib <= ria
      ensures ia == ia0 || EdgeA(agrid, bgrid, ia - 1) < rib
    {
      hide Prod, EdgeA, EdgeB;
      var dia := bgrid.im as real;
      ia, ria := ia0, ria0;
      ghost var last := BeyondIndex(rib);
      while ria < rib
        invariant ia0 <= ia && ria == EdgeA(agrid, bgrid, ia)
        invariant ia == ia0 || EdgeA(agrid, bgrid, ia - 1) < rib
        decreases last - ia
      {
        EdgeOrder(agrid, bgrid, last, ia);
        EdgeSteps(agrid, bgrid, ia);
        ia := ia + 1;
        ria := ria + dia;
      }
    }

    lemma BeyondIndex(x: real) returns (n: int)
      requires Allocated()
      ensures EdgeA(agrid, bgrid, n) >= x
    {
      n := EdgeBeyond(agrid, bgrid, x);
    }

    /** Partitions in east-west direction. */
    method PartitionEastWest()
      requires Allocated()
      modifies imin, imax, fmin, fmax
      ensures EastWestDone(agrid, bgrid, EastWest())
    {
      hide Prod, EdgeA, EdgeB, EastWestPrefix, EastWestDone;
      var dia := bgrid.im as real;
      var ia := 1;
      var ria := EdgeA(agrid, bgrid, 1);
      var ib := bgrid.im;
      StartOfSweep(EastWest());
      for ibp1 := 1 to bgrid.im + 1
        invariant EastWestPrefix(agrid, bgrid, EastWest(), ibp1 - 1, ia)
        invariant ria == EdgeA(agrid, bgrid, ia)
        invariant ib == if ibp1 == 1 then bgrid.im else ibp1 - 1
      {
        ghost var before := EastWest();
        ghost var ia0 := ia;
        var rib := EdgeB(agrid, bgrid, ibp1 - 1);
        ia, ria := Advance(ia, ria, rib);
        EastWestStep(agrid, bgrid, before, ibp1 - 1, ia0, ia);
        EdgeSteps(agrid, bgrid, ia);
        ghost var after := Record(before, ib, ibp1, ia, ria, rib, dia);
        if ria == rib {
          imax[ib] := ia;
          fmax[ib] := 0.0;
          ia := ia + 1;
          ria := ria + dia;
          imin[ibp1] := ia;
          fmin[ibp1] := 0.0;
        } else {
          imax[ib] := ia;
          fmax[ib] := (ria - rib) / dia;
          imin[ibp1] := ia;
          fmin[ibp1] := 1.0 - fmax[ib];
        }
        assert EastWest() == after;
        ib := ibp1;
      }
      ghost var s := EastWest();
      EastWestClose(agrid, bgrid, s, ia);
      imax[bgrid.im] := imax[bgrid.im] + agrid.im;
      assert EastWest() == s.(max := s.max[bgrid.im := s.max[bgrid.im] + agrid.im]);
    }

    lemma StartOfSweep(s: Sweep)
      requires Allocated() && s.HasCells(bgrid.im)
      ensures EastWestPrefix(agrid, bgrid, s, 0, 1)
    {
    }

    ghost function NorthSouth(): Sweep
      reads jmin, jmax, gmin, gmax
    {
      Sweep(jmin[..], jmax[..], gmin[..], gmax[..])
    }

    /** Fills e with the sines of the row edges of grid g. */
    method RowSines(g: HntrSpec, sine: real -> real, e: array<real>)
      requires g.Valid() && e.Length == g.jm + 1 && Rises(sine, g)
      modifies e
      ensures RowEdges(e[..]) && SinesOfEdges(sine, g, e[..])
    {
      hide Prod;
      for j := 1 to g.jm
        invariant forall k :: 1 <= k < j ==> e[k] == sine(g.Latitude(k))
      {
        e[j] := sine(g.Latitude(j));
      }
      e[0] := -1.0;
      e[g.jm] := 1.0;
      forall j, x | 1 <= j < g.jm && g.IsLatitude(j, x) ensures e[..][j] == sine(x) {
        assert x == g.Latitude(j);
      }
    }

    /** Partitions in north-south direction. */
    method PartitionNorthSouth(sine: real -> real)
      requires Allocated() && Rises(sine, agrid) && Rises(sine, bgrid)
      modifies sina, sinb, jmin, jmax, gmin, gmax
      ensures NorthSouthDone(sina[..], sinb[..], NorthSouth())
      ensures SinesOfEdges(sine, agrid, sina[..]) && SinesOfEdges(sine, bgrid, sinb[..])
    {
      hide *;
      AllocatedFacts();
      RowSines(agrid, sine, sina);
      RowSines(bgrid, sine, sinb);
      SweepRows();
    }

    method SweepRows()
      requires Allocated() && RowEdges(sina[..]) && RowEdges(sinb[..])
      modifies jmin, jmax, gmin, gmax
      ensures NorthSouthDone(sina[..], sinb[..], NorthSouth())
    {
      hide Prod, NorthSouthPrefix, NorthSouthDone, RowEdges;
      ghost var ea, eb := sina[..], sinb[..];
      jmin[1] := 1;
      gmin[1] := 0.0;
      var ja := 1;
      StartOfRows(ea, eb, NorthSouth());
      for jb := 1 to bgrid.jm
        invariant sina[..] == ea && sinb[..] == eb
        invariant NorthSouthPrefix(ea, eb, NorthSouth(), jb, ja)
      {
        ghost var before := NorthSouth();
        ghost var ja0 := ja;
        RowReached(ea, eb, before, jb, ja);
        while sina[ja] < sinb[jb]
          invariant ja0 <= ja <= agrid.jm && 1 <= ja && sina[ja - 1] < sinb[jb]
          decreases agrid.jm - ja
        {
          ja := ja + 1;
        }
        NorthSouthStep(ea, eb, before, jb, ja0, ja);
        ghost var after := RecordRow(ea, eb[jb], before, jb, ja);
        if sina[ja] == sinb[jb] {
          jmax[jb] := ja;
          gmax[jb] := 0.0;
          ja := ja + 1;
          jmin[jb + 1] := ja;
          gmin[jb + 1] := 0.0;
        } else {
          jmax[jb] := ja;
          gmax[jb] := sina[ja] - sinb[jb];
          jmin[jb + 1] := ja;
          gmin[jb + 1] := sinb[jb] - sina[ja - 1];
        }
        assert NorthSouth() == after;
      }
      ghost var s := NorthSouth();
      NorthSouthClose(ea, eb, s, ja);
      jmax[bgrid.jm] := agrid.jm;
      gmax[bgrid.jm] := 0.0;
      assert NorthSouth() == s.(max := s.max[|eb| - 1 := |ea| - 1], high := s.high[|eb| - 1 := 0.0]);
    }

    lemma AllocatedFacts()
      requires Allocated()
      ensures agrid.Valid() && bgrid.Valid() && sina != sinb
      ensures sina.Length == agrid.jm + 1 && sinb.Length == bgrid.jm + 1
      ensures {sina, sinb} !! {gmin, gmax}
    {
    }

    lemma StartOfRows(ea: seq<real>, eb: seq<real>, s: Sweep)
      requires RowEdges(ea) && RowEdges(eb) && s.HasCells(|eb| - 1) && s.min[1] == 1 && s.low[1] == 0.0
      ensures NorthSouthPrefix(ea, eb, s, 1, 1)
    {
      assert SouthernCut(ea, eb, s, 1);
    }

    lemma RowReached(ea: seq<real>, eb: seq<real>, s: Sweep, n: nat, ja: int)
      requires NorthSouthPrefix(ea, eb, s, n, ja)
      ensures 1 <= ja < |ea| && ea[ja - 1] < eb[n] && (n < |eb| - 1 ==> eb[n] < ea[|ea| - 1])
    {
      assert SouthernCut(ea, eb, s, n);
    }

    /** Everything that the two sweeps have computed. */
    ghost function State(): Cuts
      reads sina, sinb, fmin, fmax, imin, imax, gmin, gmax, jmin, jmax
    {
      Cuts(agrid, bgrid, EastWest(), sina[..], sinb[..], NorthSouth())
    }

    ghost predicate Valid()
      reads sina, sinb, fmin, fmax, imin, imax, gmin, gmax, jmin, jmax
    {
      Allocated() && State().Done()
    }

    constructor (bspec: HntrSpec, aspec: HntrSpec, sine: real -> real, datmis: real)
      requires bspec.Valid() && aspec.Valid() && Rises(sine, aspec) && Rises(sine, bspec)
      ensures Valid() && agrid == aspec && bgrid == bspec && this.datmis == datmis
      ensures SinesOfEdges(sine, agrid, sina[..]) && SinesOfEdges(sine, bgrid, sinb[..])
      ensures fresh(sina) && fresh(sinb) && fresh(fmin) && fresh(fmax) && fresh(gmin) && fresh(gmax)
    {
      hide EastWestDone, NorthSouthDone, Rises, RowEdges, SinesOfEdges;
      agrid, bgrid, this.datmis := aspec, bspec, datmis;
      sina := new real[aspec.jm + 1];
      sinb := new real[bspec.jm + 1];
      fmin := new real[bspec.im + 1];
      fmax := new real[bspec.im + 1];
      imin := new int[bspec.im + 1];
      imax := new int[bspec.im + 1];
      gmin := new real[bspec.jm + 1];
      gmax := new real[bspec.jm + 1];
      jmin := new int[bspec.jm + 1];
      jmax := new int[bspec.jm + 1];
      new;
      PartitionEastWest();
      PartitionNorthSouth(sine);
    }

    /** The F of matrix(). */
    method FractionEW(ib: int, k: int) returns (f: real)
      requires Allocated() && 1 <= ib <= bgrid.im
      ensures f == EastWest().Part(One, ib, k)
    {
      f := 1.0;
      if k == imin[ib] { f := f - fmin[ib]; }
      if k == imax[ib] { f := f - fmax[ib]; }
    }

    /** The G of matrix(). */
    method ExtentNS(jb: int, ja: int) returns (g: real)
      requires Allocated() && 1 <= jb <= bgrid.jm && 1 <= ja <= agrid.jm
      ensures g == NorthSouth().Part(RowWidth(sina[..]), jb, ja)
    {
      g := sina[ja] - sina[ja - 1];
      if ja == jmin[jb] { g := g - gmin[jb]; }
      if ja == jmax[jb] { g := g - gmax[jb]; }
    }


    /** matrix() for one B cell, feeding a RegridAccum. */
    method AccumulateCell(acc: RegridAccum, ib: int, jb: int)
      requires Valid() && 1 <= ib <= bgrid.im && 1 <= jb <= bgrid.jm
      requires |acc.wta| == |acc.a| == Times(agrid.im, agrid.jm)
      modifies acc
      ensures acc.weight == State().Integral(WeightField(agrid.im, acc.wtm, acc.wtb, acc.wta), ib, jb)
      ensures acc.value == State().Integral(ValueField(agrid.im, acc.wtm, acc.wtb, acc.wta, acc.a), ib, jb)
    {
      hide Prod, Cuts.Done, Wrap, CellNumber, Times, RangeSum, ColumnTerm, RowTerm,
        CellIntegral, CellWeight, CellValue, RowWidth, Sweep.Part;
      ghost var ew, ns, ea, im := EastWest(), NorthSouth(), sina[..], agrid.im;
      ghost var wq := WeightField(im, acc.wtm, acc.wtb, acc.wta);
      ghost var vq := ValueField(im, acc.wtm, acc.wtb, acc.wta, acc.a);
      CellRanges(State(), ib, jb);
      acc.Clear();
      RangeSumEmpty(jmin[jb], jmin[jb], RowTerm(im, ew, ea, ns, wq, ib, jb));
      RangeSumEmpty(jmin[jb], jmin[jb], RowTerm(im, ew, ea, ns, vq, ib, jb));
      for ja := jmin[jb] to jmax[jb] + 1
        invariant acc.weight == RangeSum(jmin[jb], ja, RowTerm(im, ew, ea, ns, wq, ib, jb))
        invariant acc.value == RangeSum(jmin[jb], ja, RowTerm(im, ew, ea, ns, vq, ib, jb))
      {
        var g := ExtentNS(jb, ja);
        ghost var w0, v0 := acc.weight, acc.value;
        RangeSumEmpty(imin[ib], imin[ib], ColumnTerm(im, ew, wq, ib, ja));
        RangeSumEmpty(imin[ib], imin[ib], ColumnTerm(im, ew, vq, ib, ja));
        ProdConst(g);
        for k := imin[ib] to imax[ib] + 1
          invariant acc.weight == w0 + Prod(g, RangeSum(imin[ib], k, ColumnTerm(im, ew, wq, ib, ja)))
          invariant acc.value == v0 + Prod(g, RangeSum(imin[ib], k, ColumnTerm(im, ew, vq, ib, ja)))
        {
          var ia := Wrap(agrid.im, k);
          WrapPeriod(im, k);
          CellNumberRange(im, agrid.jm, ia, ja);
          var f := FractionEW(ib, k);
          acc.AddA(CellNumber(agrid.im, ia, ja), Prod(f, g));
          ColumnStep(im, ew, wq, ib, ja, imin[ib], k, g);
          ColumnStep(im, ew, vq, ib, ja, imin[ib], k, g);
        }
        RowStep(im, ew, ea, ns, wq, ib, jb, ja);
        RowStep(im, ew, ea, ns, vq, ib, jb, ja);
      }
      CellIntegralIs(im, ew, ea, ns, wq, ib, jb);
      CellIntegralIs(im, ew, ea, ns, vq, ib, jb);
    }

    /** The conservative step of regrid; ok is false, and b untouched, where the source reports wrong dimensions. */
    method RegridCells(wta: seq<real>, a: seq<real>, b: array<real>, wtm: real, wtb: real) returns (ok: bool)
      requires Valid() && b !in {sina, sinb, fmin, fmax, gmin, gmax}
      modifies b
      ensures Valid() && State() == old(State())
      ensures ok <==> |wta| == |a| == Times(agrid.im, agrid.jm) && b.Length == Times(bgrid.im, bgrid.jm)
      ensures ok ==> forall n :: 0 <= n < b.Length ==> b[n] == Regridded(State(), datmis, wtm, wtb, wta, a, n)
      ensures !ok ==> b[..] == old(b[..])
    {
      hide Cuts.Done, Times, CellNumber, Cuts.Integral, Quot, Rem, Mean;
      if |wta| != Times(agrid.im, agrid.jm) || |a| != |wta| || b.Length != Times(bgrid.im, bgrid.jm) {
        return false;
      }
      ok := true;
      var acc := new RegridAccum(wta, a, b, datmis, wtm, wtb);
      CellNumberNext(bgrid.im, 0, 1);
      for jb := 1 to bgrid.jm + 1
        invariant Valid() && State() == old(State())
        invariant forall n :: 0 <= n < CellNumber(bgrid.im, 1, jb) - 1 && n < b.Length ==>
                                b[n] == Regridded(State(), datmis, wtm, wtb, wta, a, n)
      {
        for ib := 1 to bgrid.im + 1
          invariant Valid() && State() == old(State())
          invariant forall n :: 0 <= n < CellNumber(bgrid.im, ib, jb) - 1 && n < b.Length ==>
                                  b[n] == Regridded(State(), datmis, wtm, wtb, wta, a, n)
        {
          AccumulateCell(acc, ib, jb);
          var ijb := CellNumber(bgrid.im, ib, jb);
          CellNumberRange(bgrid.im, bgrid.jm, ib, jb);
          CellNumberInverse(bgrid.im, ib, jb);
          ghost var before := b[..];
          acc.FinishB(ijb);
          CellNumberNext(bgrid.im, ib, jb);
        }
        CellNumberNext(bgrid.im, 0, jb + 1);
        CellNumberNext(bgrid.im, 0, jb);
      }
      CellNumberNext(bgrid.im, 0, bgrid.jm + 1);
    }

    /** What the conservative step stores in all cells. */
    ghost function Field(wtm: real, wtb: real, wta: seq<real>, a: seq<real>): (r: seq<real>)
      requires Valid()
      reads this, sina, sinb, fmin, fmax, gmin, gmax, imin, imax, jmin, jmax
      ensures |r| == Times(bgrid.im, bgrid.jm)
    {
      var c := State();
      TimesNonNegative(bgrid.im, bgrid.jm);
      seq(Times(bgrid.im, bgrid.jm), n => Regridded(c, datmis, wtm, wtb, wta, a, n))
    }

    /** regrid; mean_polar on a grid of a single row never ends. */
    method Regrid(wta: seq<real>, a: seq<real>, b: array<real>, meanPolar: bool, wtm: real, wtb: real)
      returns (ok: bool)
      requires Valid() && b !in {sina, sinb, fmin, fmax, gmin, gmax}
      requires meanPolar ==> bgrid.jm != 1
      modifies b
      ensures Valid() && State() == old(State())
      ensures ok <==> |wta| == |a| == Times(agrid.im, agrid.jm) && b.Length == Times(bgrid.im, bgrid.jm)
      ensures ok ==> b[..] == if meanPolar then PolarMeans(Field(wtm, wtb, wta, a), bgrid.im, bgrid.jm, datmis)
                              else Field(wtm, wtb, wta, a)
      ensures !ok ==> b[..] == old(b[..])
    {
      hide Cuts.Done, Times, Regridded;
      ok := RegridCells(wta, a, b, wtm, wtb);
      if ok {
        assert b[..] == Field(wtm, wtb, wta, a);
        if meanPolar {
          MeanPolar(b, bgrid.im, bgrid.jm, datmis);
        }
      }
    }

    /** The inner loop of matrix(): one row of A cells. */
    method AccumulateRow(acc: MatAccum, ib: int, jb: int, ja: int)
      requires Valid() && 1 <= ib <= bgrid.im && 1 <= jb <= bgrid.jm && jmin[jb] <= ja <= jmax[jb]
      modifies acc
      ensures State().ew.HasCells(|State().ew.min| - 1) && ib < |State().ew.min| == |State().ew.max| && agrid.im >= 1
      ensures acc.weight == old(acc.weight)
                          + Prod(State().ns.Part(RowWidth(sina[..]), jb, ja),
                                 RangeSum(imin[ib], imax[ib] + 1,
                                          ColumnTerm(agrid.im, State().ew, UnitField(), ib, ja)))
      ensures acc.bvals == old(acc.bvals) + RowParts(State(), ib, jb, ja, imax[ib] + 1)
      ensures acc.accum == old(acc.accum)
    {
      hide Prod, Cuts.Done, Wrap, CellNumber, RangeSum, ColumnTerm, RowWidth, Sweep.Part;
      ghost var c, ew, im, q := State(), EastWest(), agrid.im, UnitField();
      CellRanges(c, ib, jb);
      var g := ExtentNS(jb, ja);
      ghost var w0, before := acc.weight, acc.bvals;
      RangeSumEmpty(imin[ib], imin[ib], ColumnTerm(im, ew, q, ib, ja));
      ProdConst(g);
      for k := imin[ib] to imax[ib] + 1
        invariant acc.weight == w0 + Prod(g, RangeSum(imin[ib], k, ColumnTerm(im, ew, q, ib, ja)))
        invariant acc.bvals == before + RowParts(c, ib, jb, ja, k) && acc.accum == old(acc.accum)
      {
        var f := FractionEW(ib, k);
        acc.AddA(CellNumber(agrid.im, Wrap(agrid.im, k), ja), Prod(f, g));
        ColumnStep(im, ew, q, ib, ja, imin[ib], k, g);
        ProdConst(Prod(f, g));
        assert acc.bvals == before + (RowParts(c, ib, jb, ja, k)
                                      + [(Index(CellNumber(im, Wrap(im, k), ja)), Prod(f, g))]);
      }
    }

    /** matrix() for one B cell, feeding a MatAccum. */
    method AccumulateOverlap(acc: MatAccum, ib: int, jb: int)
      requires Valid() && 1 <= ib <= bgrid.im && 1 <= jb <= bgrid.jm
      modifies acc
      ensures jb < |State().ns.max| && acc.bvals == CellParts(State(), ib, jb, State().ns.max[jb] + 1)
      ensures acc.weight == State().Integral(UnitField(), ib, jb) && acc.accum == old(acc.accum)
    {
      hide Prod, Cuts.Done, CellNumber, RangeSum, ColumnTerm, RowTerm, CellIntegral, RowWidth, Sweep.Part, RowParts;
      ghost var c, ew, ns, ea, im := State(), EastWest(), NorthSouth(), sina[..], agrid.im;
      ghost var q := UnitField();
      CellRanges(c, ib, jb);
      acc.Clear();
      RangeSumEmpty(jmin[jb], jmin[jb], RowTerm(im, ew, ea, ns, q, ib, jb));
      for ja := jmin[jb] to jmax[jb] + 1
        invariant acc.weight == RangeSum(jmin[jb], ja, RowTerm(im, ew, ea, ns, q, ib, jb))
        invariant acc.bvals == CellParts(c, ib, jb, ja) && acc.accum == old(acc.accum)
      {
        AccumulateRow(acc, ib, jb, ja);
        RowStep(im, ew, ea, ns, q, ib, jb, ja);
      }
      CellIntegralIs(im, ew, ea, ns, q, ib, jb);
    }

    lemma StateFacts()
      requires Valid()
      ensures State().Done() && State().a == agrid && State().b == bgrid && agrid.im >= 1 && bgrid.im >= 1
    {
    }

    method EmitCell(acc: MatAccum, ib: int, jb: int)
      requires Valid() && 1 <= ib <= bgrid.im && 1 <= jb <= bgrid.jm && |acc.area| == bgrid.jm + 1
      modifies acc
      ensures acc.accum == old(acc.accum) + CellEntries(State(), acc.area[jb], ib, jb)
    {
      hide Prod, Cuts.Done, CellNumber, Cuts.Integral, CellParts, Emit;
      AccumulateOverlap(acc, ib, jb);
      CellWeightIs(State(), ib, jb);
      acc.FinishB(CellNumber(bgrid.im, ib, jb), jb);
    }

    /** The overlap matrix of the included B cells; area holds the area of a B cell by row. */
    method Overlap(area: seq<real>, includeB: int -> bool) returns (m: Triplets)
      requires Valid() && |area| == bgrid.jm + 1
      ensures m == OverlapUpTo(State(), area, includeB, Times(bgrid.im, bgrid.jm))
    {
      hide *;
      StateFacts();
      ghost var c := State();
      var acc := new MatAccum(area);
      CellNumberNext(bgrid.im, 0, 1);
      NoCells(c, area, includeB);
      for jb := 1 to bgrid.jm + 1
        invariant Valid() && State() == c && acc.area == area
        invariant CellNumber(bgrid.im, 1, jb) - 1 <= Times(bgrid.im, bgrid.jm)
        invariant acc.accum == OverlapUpTo(c, area, includeB, CellNumber(bgrid.im, 1, jb) - 1)
      {
        for ib := 1 to bgrid.im + 1
          invariant Valid() && State() == c && acc.area == area
          invariant CellNumber(bgrid.im, ib, jb) - 1 <= Times(bgrid.im, bgrid.jm)
          invariant acc.accum == OverlapUpTo(c, area, includeB, CellNumber(bgrid.im, ib, jb) - 1)
        {
          ghost var n := CellNumber(bgrid.im, ib, jb) - 1;
          CellNumberRange(bgrid.im, bgrid.jm, ib, jb);
          CellNumberNext(bgrid.im, ib, jb);
          if includeB(CellNumber(bgrid.im, ib, jb) - 1) {
            EmitCell(acc, ib, jb);
          }
          OverlapNext(c, area, includeB, ib, jb);
        }
        CellNumberNext(bgrid.im, 0, jb + 1);
        CellNumberNext(bgrid.im, 0, jb);
      }
      CellNumberNext(bgrid.im, 0, bgrid.jm + 1);
      m := acc.accum;
    }
  }

  /** The regridder from make_hntrA's grid to its ocean grid cuts nested grids. */
  lemma CoarseRegridderNests(h: Hntr, sine: real -> real)
    requires h.Valid() && Even(h.bgrid) && h.agrid == CoarseSpec(h.bgrid)
    requires SinesOfEdges(sine, h.agrid, h.sina[..]) && SinesOfEdges(sine, h.bgrid, h.sinb[..])
    ensures Nested(h.State())
  {
    hide SinesOfEdges, EastWestDone, NestedRows;
    RowsNest(h.bgrid, sine, h.sina[..], h.sinb[..]);
  }
}
