/**
 What a regridded value means (regrid in slib/icebin/modele/hntr.hpp): the mean of A over the B cell, weighted by
 wtm * WTA + wtb.
 */
module HntrMeans {
  import opened Vectors
  import opened Sums
  import opened Sweeps
  import opened Sparse
  import opened HntrSweeps
  import opened HntrIntegrals
  import opened HntrOverlap
  import opened Ints

  /** An array over the cells of a grid with im columns, as a field. */
  ghost function ArrayField(im: int, v: seq<real>): (int, int) -> real
  {
    (i, j) => if 1 <= CellNumber(im, i, j) <= |v| then v[CellNumber(im, i, j) - 1] else 0.0
  }

  /** q == p q1 + r q2 on the cells of grid A. */
  ghost predicate Combines(a: HntrSpec, q: (int, int) -> real, q1: (int, int) -> real, q2: (int, int) -> real,
                           p: real, r: real)
  {
    forall i, j :: 1 <= i <= a.im && 1 <= j <= a.jm ==> q(i, j) == Prod(p, q1(i, j)) + Prod(r, q2(i, j))
  }

  lemma {:induction false} RangeSumCombines(lo: int, hi: int, f: int -> real, f1: int -> real, f2: int -> real, p: real,
                                            r: real)
    requires forall k :: lo <= k < hi ==> f(k) == Prod(p, f1(k)) + Prod(r, f2(k))
    ensures RangeSum(lo, hi, f) == Prod(p, RangeSum(lo, hi, f1)) + Prod(r, RangeSum(lo, hi, f2))
    decreases hi - lo
  {
    hide Prod;
    if lo < hi {
      RangeSumCombines(lo, hi - 1, f, f1, f2, p, r);
      ProdPlus(p, RangeSum(lo, hi - 1, f1), f1(hi - 1));
      ProdPlus(r, RangeSum(lo, hi - 1, f2), f2(hi - 1));
    } else {
      ProdConst(p);
      ProdConst(r);
    }
  }

  lemma TermCombines(g: real, p: real, a: real, r: real, b: real)
    ensures Prod(g, Prod(p, a) + Prod(r, b)) == Prod(p, Prod(g, a)) + Prod(r, Prod(g, b))
  {
    hide Prod;
    ProdPlus(g, Prod(p, a), Prod(r, b));
    ProdAssoc(g, p, a);
    ProdAssoc(p, g, a);
    ProdComm(g, p);
    ProdAssoc(g, r, b);
    ProdAssoc(r, g, b);
    ProdComm(g, r);
  }

  lemma ColumnCombines(c: Cuts, q: (int, int) -> real, q1: (int, int) -> real, q2: (int, int) -> real, p: real, r: real,
                       ib: int, ja: int)
    requires c.Done() && Combines(c.a, q, q1, q2, p, r) && 1 <= ib <= c.b.im && 1 <= ja <= c.a.jm && c.a.im >= 1
    ensures ColumnField(c.a.im, c.ew, q, ib)(ja)
         == Prod(p, ColumnField(c.a.im, c.ew, q1, ib)(ja)) + Prod(r, ColumnField(c.a.im, c.ew, q2, ib)(ja))
  {
    hide Prod, Cuts.Done, ColumnField, Sweep.Part, Wrap;
    HalfRanges(c, ib);
    var im, ew := c.a.im, c.ew;
    ColumnFieldIs(im, ew, q, ib, ja);
    ColumnFieldIs(im, ew, q1, ib, ja);
    ColumnFieldIs(im, ew, q2, ib, ja);
    forall k | ew.min[ib] <= k < ew.max[ib] + 1
      ensures ColumnTerm(im, ew, q, ib, ja)(k)
           == Prod(p, ColumnTerm(im, ew, q1, ib, ja)(k)) + Prod(r, ColumnTerm(im, ew, q2, ib, ja)(k))
    {
      WrapPeriod(im, k);
      ColumnTermAt(im, ew, q, ib, ja, k);
      ColumnTermAt(im, ew, q1, ib, ja, k);
      ColumnTermAt(im, ew, q2, ib, ja, k);
      TermCombines(ew.Part(One, ib, k), p, q1(Wrap(im, k), ja), r, q2(Wrap(im, k), ja));
    }
    RangeSumCombines(ew.min[ib], ew.max[ib] + 1, ColumnTerm(im, ew, q, ib, ja), ColumnTerm(im, ew, q1, ib, ja),
                     ColumnTerm(im, ew, q2, ib, ja), p, r);
  }

  lemma HalfRanges(c: Cuts, ib: int)
    requires c.Done() && 1 <= ib <= c.b.im
    ensures c.a.im >= 1 && c.ew.HasCells(|c.ew.min| - 1) && ib < |c.ew.min| && 1 <= c.ew.min[ib] <= c.ew.max[ib]
  {
    hide Cuts.Done;
    BSize(c);
    CellRanges(c, ib, 1);
  }

  lemma BSize(c: Cuts)
    requires c.Done()
    ensures c.a.im >= 1 && c.b.im >= 1 && c.b.jm >= 1 && |c.ea| > 0
  {
  }

  /** Cell integrals are linear in the field. */
  lemma IntegralCombines(c: Cuts, q: (int, int) -> real, q1: (int, int) -> real, q2: (int, int) -> real, p: real,
                         r: real, ib: int, jb: int)
    requires c.Done() && Combines(c.a, q, q1, q2, p, r) && 1 <= ib <= c.b.im && 1 <= jb <= c.b.jm
    ensures c.Integral(q, ib, jb) == Prod(p, c.Integral(q1, ib, jb)) + Prod(r, c.Integral(q2, ib, jb))
  {
    hide Prod, Cuts.Done, ColumnField, Sweep.Part, CellIntegral, Combines;
    CellRanges(c, ib, jb);
    BSize(c);
    var im, ew, ea, ns := c.a.im, c.ew, c.ea, c.ns;
    CellIntegralIs(im, ew, ea, ns, q, ib, jb);
    CellIntegralIs(im, ew, ea, ns, q1, ib, jb);
    CellIntegralIs(im, ew, ea, ns, q2, ib, jb);
    forall ja | ns.min[jb] <= ja < ns.max[jb] + 1
      ensures RowTerm(im, ew, ea, ns, q, ib, jb)(ja)
           == Prod(p, RowTerm(im, ew, ea, ns, q1, ib, jb)(ja)) + Prod(r, RowTerm(im, ew, ea, ns, q2, ib, jb)(ja))
    {
      ColumnCombines(c, q, q1, q2, p, r, ib, ja);
      TermCombines(ns.Part(RowWidth(ea), jb, ja), p, ColumnField(im, ew, q1, ib)(ja), r,
                   ColumnField(im, ew, q2, ib)(ja));
    }
    RangeSumCombines(ns.min[jb], ns.max[jb] + 1, RowTerm(im, ew, ea, ns, q, ib, jb),
                     RowTerm(im, ew, ea, ns, q1, ib, jb), RowTerm(im, ew, ea, ns, q2, ib, jb), p, r);
  }

  /** wtm times the integral of WTA, plus wtb times the size of the cell. */
  ghost function CellTotal(c: Cuts, wtm: real, wtb: real, weighted: seq<real>, plain: (int, int) -> real, ib: int,
                           jb: int): real
  {
    Prod(wtm, c.Integral(ArrayField(c.a.im, weighted), ib, jb)) + Prod(wtb, c.Integral(plain, ib, jb))
  }

  lemma WeightCombines(c: Cuts, wtm: real, wtb: real, wta: seq<real>, a: seq<real>)
    requires c.Done() && |wta| == |a| == Times(c.a.im, c.a.jm)
    ensures Combines(c.a, WeightField(c.a.im, wtm, wtb, wta), ArrayField(c.a.im, wta), UnitField(), wtm, wtb)
    ensures Combines(c.a, ValueField(c.a.im, wtm, wtb, wta, a), ArrayField(c.a.im, Hadamard(wta, a)),
                     ArrayField(c.a.im, a), wtm, wtb)
  {
    hide Prod, CellNumber, Times, Cuts.Done;
    forall i, j | 1 <= i <= c.a.im && 1 <= j <= c.a.jm
      ensures WeightField(c.a.im, wtm, wtb, wta)(i, j)
           == Prod(wtm, ArrayField(c.a.im, wta)(i, j)) + Prod(wtb, UnitField()(i, j))
      ensures ValueField(c.a.im, wtm, wtb, wta, a)(i, j)
           == Prod(wtm, ArrayField(c.a.im, Hadamard(wta, a))(i, j)) + Prod(wtb, ArrayField(c.a.im, a)(i, j))
    {
      var n := CellNumber(c.a.im, i, j);
      CellNumberRange(c.a.im, c.a.jm, i, j);
      ProdConst(wtb);
      ProdPlus(a[n - 1], Prod(wtm, wta[n - 1]), wtb);
      ProdAssoc(wtm, wta[n - 1], a[n - 1]);
    }
  }

  /**
   A regridded cell holds the missing-data value if wtm * (integral of WTA) + wtb * (size of the cell) is 0, and else
   the value that, times this weight, is wtm * (integral of WTA A) + wtb * (integral of A).
   */
  lemma RegriddedMean(c: Cuts, datmis: real, wtm: real, wtb: real, wta: seq<real>, a: seq<real>, ib: int, jb: int)
    requires c.Done() && |wta| == |a| == Times(c.a.im, c.a.jm) && 1 <= ib <= c.b.im && 1 <= jb <= c.b.jm
    ensures var r := Regridded(c, datmis, wtm, wtb, wta, a, CellNumber(c.b.im, ib, jb) - 1);
            var w := CellTotal(c, wtm, wtb, wta, UnitField(), ib, jb);
      if w == 0.0 then r == datmis
      else Prod(w, r) == CellTotal(c, wtm, wtb, Hadamard(wta, a), ArrayField(c.a.im, a), ib, jb)
  {
    hide Prod, CellNumber, Times, Cuts.Done, Quot, Rem, Cuts.Integral, WeightField, ValueField, ArrayField, Combines;
    BSize(c);
    CellNumberInverse(c.b.im, ib, jb);
    WeightCombines(c, wtm, wtb, wta, a);
    IntegralCombines(c, WeightField(c.a.im, wtm, wtb, wta), ArrayField(c.a.im, wta), UnitField(), wtm, wtb, ib, jb);
    IntegralCombines(c, ValueField(c.a.im, wtm, wtb, wta, a), ArrayField(c.a.im, Hadamard(wta, a)),
                     ArrayField(c.a.im, a), wtm, wtb, ib, jb);
    MeanIs(c.Integral(WeightField(c.a.im, wtm, wtb, wta), ib, jb),
           c.Integral(ValueField(c.a.im, wtm, wtb, wta, a), ib, jb), datmis);
  }

  lemma MeanIs(weight: real, value: real, datmis: real)
    ensures weight == 0.0 ==> Mean(weight, value, datmis) == datmis
    ensures weight != 0.0 ==> Prod(weight, Mean(weight, value, datmis)) == value
  {
  }

  // ---------------------------------------------------------------- the overlap matrix regrids

  /** The values of an array over the cells of a grid, by cell number. */
  ghost function Values(v: seq<real>): int -> real
  {
    k => if 0 <= k < |v| then v[k] else 0.0
  }

  ghost predicate PartsWithin(parts: seq<Part>, n: int)
  {
    forall k :: 0 <= k < |parts| ==> parts[k].0 < n
  }

  lemma CellWithin(a: HntrSpec, k: int, ja: int)
    requires a.im >= 1 && k >= 1 && 1 <= ja <= a.jm
    ensures Index(CellNumber(a.im, Wrap(a.im, k), ja)) < Times(a.im, a.jm)
  {
    hide CellNumber, Wrap, Times;
    WrapPeriod(a.im, k);
    CellNumberRange(a.im, a.jm, Wrap(a.im, k), ja);
  }

  lemma {:induction false} RowPartsWithin(c: Cuts, ib: int, jb: int, ja: int, k: int)
    requires c.Done() && 1 <= ib <= c.b.im && 1 <= jb <= c.b.jm && 1 <= ja <= c.a.jm
    ensures PartsWithin(RowParts(c, ib, jb, ja, k), Times(c.a.im, c.a.jm))
    decreases k
  {
    hide Prod, Cuts.Done, CellNumber, Wrap, Times, Index, Sweep.Part, RowWidth;
    DoneHasCells(c, ib, jb);
    if !(k <= c.ew.min[ib] || k <= 1) {
      RowPartsWithin(c, ib, jb, ja, k - 1);
      CellWithin(c.a, k - 1, ja);
    }
  }

  lemma {:induction false} CellPartsWithin(c: Cuts, ib: int, jb: int, ja: int)
    requires c.Done() && 1 <= ib <= c.b.im && 1 <= jb <= c.b.jm && ja <= c.a.jm + 1
    ensures PartsWithin(CellParts(c, ib, jb, ja), Times(c.a.im, c.a.jm))
    decreases ja
  {
    hide Cuts.Done, RowParts, Times;
    DoneHasCells(c, ib, jb);
    if !(ja <= c.ns.min[jb] || ja <= 1) {
      CellPartsWithin(c, ib, jb, ja - 1);
      RowPartsWithin(c, ib, jb, ja - 1, c.ew.max[ib] + 1);
    }
  }

  /** All entries of T lie in one row and in the first n columns. */
  ghost predicate InRow(T: Triplets, row: nat, n: int)
  {
    forall k :: 0 <= k < |T| ==> T[k].i == row && T[k].j < n
  }

  lemma {:induction false} EmitInRow(parts: seq<Part>, weight: real, area: real, row: nat, n: int)
    requires weight != 0.0 && PartsWithin(parts, n)
    ensures InRow(Emit(parts, weight, area, row), row, n)
  {
    hide Prod;
    if |parts| > 0 { EmitInRow(parts[..|parts| - 1], weight, area, row, n); }
  }

  lemma CellEntriesInRow(c: Cuts, area: real, ib: int, jb: int)
    requires c.Done() && 1 <= ib <= c.b.im && 1 <= jb <= c.b.jm
    ensures InRow(CellEntries(c, area, ib, jb), Index(CellNumber(c.b.im, ib, jb)), Times(c.a.im, c.a.jm))
  {
    hide Cuts.Done, CellParts, Emit, Times, Cuts.Integral, CellNumber;
    CellRanges(c, ib, jb);
    CellWeightIs(c, ib, jb);
    CellPartsWithin(c, ib, jb, c.ns.max[jb] + 1);
    EmitInRow(CellParts(c, ib, jb, c.ns.max[jb] + 1), c.Integral(UnitField(), ib, jb), area,
              Index(CellNumber(c.b.im, ib, jb)), Times(c.a.im, c.a.jm));
  }

  lemma {:induction false} ApplyRow(S: Triplets, T: Triplets, x: seq<real>, m: nat, row: nat)
    requires InBounds(S, m, |x|) && row < m && InRow(T, row, |x|)
    ensures InBounds(S + T, m, |x|)
    ensures Apply(S + T, x, m) == Apply(S, x, m)[row := Apply(S, x, m)[row] + EntryForm(T, Values(x))]
  {
    hide Prod, Apply;
    if |T| == 0 {
      assert S + T == S;
    } else {
      var n := |T| - 1;
      ApplyRow(S, T[..n], x, m, row);
      assert S + T == (S + T[..n]) + [T[n]];
      ApplyAppend(S + T[..n], T[n], x, m);
      assert T[n].j < |x| && Values(x)(T[n].j) == x[T[n].j];
    }
  }

  /** Row r of the matrix: the entries of cell number r, if it is included. */
  ghost function RowForm(c: Cuts, area: seq<real>, includeB: int -> bool, h: int -> real, r: int): real
    requires c.Done() && |area| == c.b.jm + 1 && 0 <= r < Times(c.b.im, c.b.jm)
  {
    CellOfNumber(c, r);
    if includeB(r)
    then EntryForm(CellEntries(c, area[Quot(r, c.b.im) + 1], Rem(r, c.b.im) + 1, Quot(r, c.b.im) + 1), h)
    else 0.0
  }

  lemma {:induction false} OverlapRows(c: Cuts, area: seq<real>, includeB: int -> bool, a: seq<real>, m: nat, n: nat)
    requires c.Done() && |area| == c.b.jm + 1 && n <= m == Times(c.b.im, c.b.jm) && |a| == Times(c.a.im, c.a.jm)
    ensures InBounds(OverlapUpTo(c, area, includeB, n), m, |a|)
    ensures forall r :: 0 <= r < m ==>
      Apply(OverlapUpTo(c, area, includeB, n), a, m)[r]
      == if r < n then RowForm(c, area, includeB, Values(a), r) else 0.0
  {
    hide Prod, Quot, Rem, Times, Cuts.Done, CellEntries, CellNumber, Apply, EntryForm, Values, InRow;
    if n == 0 {
      NoCells(c, area, includeB);
      assert Apply([], a, m) == Const(m, 0.0) by { NoRows(a, m); }
    } else {
      OverlapRows(c, area, includeB, a, m, n - 1);
      CellOfNumber(c, n - 1);
      var ib, jb := Rem(n - 1, c.b.im) + 1, Quot(n - 1, c.b.im) + 1;
      OverlapNext(c, area, includeB, ib, jb);
      var S := OverlapUpTo(c, area, includeB, n - 1);
      if includeB(n - 1) {
        CellEntriesInRow(c, area[jb], ib, jb);
        ApplyRow(S, CellEntries(c, area[jb], ib, jb), a, m, n - 1);
      } else {
        assert S + [] == S;
      }
    }
  }

  lemma NoRows(a: seq<real>, m: nat)
    ensures Apply([], a, m) == Const(m, 0.0)
  {
  }

  /**
   The overlap matrix regrids: applied to an array over grid A, it gives in every included B cell the area of the cell
   times the value that regrid gives for equal weights, and 0 elsewhere.  With areas of 1 it is regrid itself.
   */
  lemma OverlapRegrids(c: Cuts, area: seq<real>, includeB: int -> bool, datmis: real, wta: seq<real>, a: seq<real>)
    requires c.Done() && |area| == c.b.jm + 1 && |wta| == |a| == Times(c.a.im, c.a.jm)
    ensures var m := Times(c.b.im, c.b.jm);
      && m >= 0 && InBounds(OverlapUpTo(c, area, includeB, m), m, |a|)
      && forall ib, jb :: 1 <= ib <= c.b.im && 1 <= jb <= c.b.jm ==>
           var r := CellNumber(c.b.im, ib, jb) - 1;
           && 0 <= r < m
           && Apply(OverlapUpTo(c, area, includeB, m), a, m)[r]
              == if includeB(r) then Prod(area[jb], Regridded(c, datmis, 0.0, 1.0, wta, a, r)) else 0.0
  {
    hide *;
    NoCells(c, area, includeB);
    var m := Times(c.b.im, c.b.jm);
    OverlapRows(c, area, includeB, a, m, m);
    forall ib, jb | 1 <= ib <= c.b.im && 1 <= jb <= c.b.jm
      ensures var r := CellNumber(c.b.im, ib, jb) - 1;
        && 0 <= r < m
        && Apply(OverlapUpTo(c, area, includeB, m), a, m)[r]
           == if includeB(r) then Prod(area[jb], Regridded(c, datmis, 0.0, 1.0, wta, a, r)) else 0.0
    {
      CellNumberRange(c.b.im, c.b.jm, ib, jb);
      CellRegrids(c, area, includeB, datmis, wta, a, ib, jb);
    }
  }

  lemma CellRegrids(c: Cuts, area: seq<real>, includeB: int -> bool, datmis: real, wta: seq<real>, a: seq<real>,
                    ib: int, jb: int)
    requires c.Done() && |area| == c.b.jm + 1 && |wta| == |a| == Times(c.a.im, c.a.jm)
    requires 1 <= ib <= c.b.im && 1 <= jb <= c.b.jm
    ensures var r := CellNumber(c.b.im, ib, jb) - 1;
      && 0 <= r < Times(c.b.im, c.b.jm)
      && RowForm(c, area, includeB, Values(a), r)
         == if includeB(r) then Prod(area[jb], Regridded(c, datmis, 0.0, 1.0, wta, a, r)) else 0.0
  {
    hide Prod, CellNumber, Times, Cuts.Done, Quot, Rem, Cuts.Integral, CellEntries, EntryForm, Regridded;
    CellNumberRange(c.b.im, c.b.jm, ib, jb);
    CellNumberInverse(c.b.im, ib, jb);
    var r := CellNumber(c.b.im, ib, jb) - 1;
    ArrayByNumber(c.a, a);
    CellEntriesAct(c, area[jb], ArrayField(c.a.im, a), Values(a), ib, jb);
    CellWeightIs(c, ib, jb);
    RegriddedMean(c, datmis, 0.0, 1.0, wta, a, ib, jb);
    PlainTotal(c, wta, UnitField(), ib, jb);
    PlainTotal(c, Hadamard(wta, a), ArrayField(c.a.im, a), ib, jb);
    SameMean(c.Integral(UnitField(), ib, jb), EntryForm(CellEntries(c, area[jb], ib, jb), Values(a)), area[jb],
             Regridded(c, datmis, 0.0, 1.0, wta, a, r));
  }

  lemma PlainTotal(c: Cuts, weighted: seq<real>, plain: (int, int) -> real, ib: int, jb: int)
    ensures CellTotal(c, 0.0, 1.0, weighted, plain, ib, jb) == c.Integral(plain, ib, jb)
  {
    hide Prod, Cuts.Integral;
    ProdConst(c.Integral(ArrayField(c.a.im, weighted), ib, jb));
    ProdConst(c.Integral(plain, ib, jb));
  }

  lemma ArrayByNumber(a: HntrSpec, v: seq<real>)
    requires |v| == Times(a.im, a.jm)
    ensures ByNumber(a, ArrayField(a.im, v), Values(v))
  {
    hide CellNumber, Times;
    forall i, j | 1 <= i <= a.im && 1 <= j <= a.jm
      ensures ArrayField(a.im, v)(i, j) == Values(v)(Index(CellNumber(a.im, i, j)))
    {
      CellNumberRange(a.im, a.jm, i, j);
    }
  }

  lemma SameMean(w: real, form: real, area: real, r: real)
    requires w > 0.0 && Prod(w, form) == Prod(area, Prod(w, r))
    ensures form == Prod(area, r)
  {
    assert w * (form - area * r) == 0.0;
  }
}
