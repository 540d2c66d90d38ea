/**
 The overlap matrix of two latitude/longitude grids (Hntr::overlap and Hntr::scaled_regrid_matrix in
 slib/icebin/modele/hntr.hpp): what one B cell contributes, and the exact matrix for 2:1 nested grids.
 */
module HntrOverlap {
  import opened Vectors
  import opened Sums
  import opened Sweeps
  import opened Sparse
  import opened HntrSweeps
  import opened HntrIntegrals
  import opened Ints

  type Part = (nat, real)

  function Index(n: int): nat
  {
    if n < 1 then 0 else n - 1
  }

  /** What addA has buffered for A cells min..k-1 of row ja. */
  ghost function RowParts(c: Cuts, ib: int, jb: int, ja: int, k: int): seq<Part>
    requires c.Done() && 1 <= ib <= c.b.im && 1 <= jb <= c.b.jm
    decreases k
  {
    DoneHasCells(c, ib, jb);
    if k <= c.ew.min[ib] || k <= 1 then []
    else
      var part := (Index(CellNumber(c.a.im, Wrap(c.a.im, k - 1), ja)),
                   Prod(c.ew.Part(One, ib, k - 1), c.ns.Part(RowWidth(c.ea), jb, ja)));
      RowParts(c, ib, jb, ja, k - 1) + [part]
  }

  /** What addA has buffered for rows min..ja-1. */
  ghost function CellParts(c: Cuts, ib: int, jb: int, ja: int): seq<Part>
    requires c.Done() && 1 <= ib <= c.b.im && 1 <= jb <= c.b.jm
    decreases ja
  {
    DoneHasCells(c, ib, jb);
    if ja <= c.ns.min[jb] || ja <= 1 then []
    else CellParts(c, ib, jb, ja - 1) + RowParts(c, ib, jb, ja - 1, c.ew.max[ib] + 1)
  }

  lemma DoneHasCells(c: Cuts, ib: int, jb: int)
    requires c.Done() && 1 <= ib <= c.b.im && 1 <= jb <= c.b.jm
    ensures c.a.im >= 1 && |c.ea| > 0
    ensures c.ew.HasCells(|c.ew.min| - 1) && c.ns.HasCells(|c.ns.min| - 1)
    ensures ib < |c.ew.min| == |c.ew.max| && jb < |c.ns.min| == |c.ns.max|
  {
  }

  /** What finishB emits: the buffered parts, scaled so that they add up to the area of the B cell. */
  ghost function Emit(parts: seq<Part>, weight: real, area: real, row: nat): Triplets
    requires weight != 0.0
  {
    if |parts| == 0 then []
    else
      var p := parts[|parts| - 1];
      Emit(parts[..|parts| - 1], weight, area, row) + [Entry(row, p.0, Prod(Prod(p.1, 1.0 / weight), area))]
  }

  /** The buffered parts, applied to a field over the A cells by number. */
  ghost function PartForm(parts: seq<Part>, h: int -> real): real
  {
    if |parts| == 0 then 0.0
    else PartForm(parts[..|parts| - 1], h) + Prod(parts[|parts| - 1].1, h(parts[|parts| - 1].0))
  }

  /** Matrix entries of one row, applied to a field over the A cells by number. */
  ghost function EntryForm(T: Triplets, h: int -> real): real
  {
    if |T| == 0 then 0.0 else EntryForm(T[..|T| - 1], h) + Prod(T[|T| - 1].v, h(T[|T| - 1].j))
  }

  ghost function ValueSum(T: Triplets): real
  {
    if |T| == 0 then 0.0 else ValueSum(T[..|T| - 1]) + T[|T| - 1].v
  }

  lemma {:induction false} UnitForm(T: Triplets)
    ensures EntryForm(T, One) == ValueSum(T)
  {
    hide Prod;
    if |T| > 0 {
      UnitForm(T[..|T| - 1]);
      ProdConst(T[|T| - 1].v);
    }
  }

  lemma {:induction false} EmitForm(parts: seq<Part>, weight: real, area: real, row: nat, h: int -> real)
    requires weight != 0.0
    ensures EntryForm(Emit(parts, weight, area, row), h) == Prod(Prod(PartForm(parts, h), 1.0 / weight), area)
  {
    hide Prod;
    if |parts| == 0 {
      ProdConst(1.0 / weight);
      ProdConst(area);
    } else {
      var n := |parts| - 1;
      var p := parts[n];
      EmitForm(parts[..n], weight, area, row, h);
      EmitPart(p.1, 1.0 / weight, area, h(p.0));
      ProdPlus(1.0 / weight, PartForm(parts[..n], h), Prod(p.1, h(p.0)));
      ProdPlus(area, Prod(PartForm(parts[..n], h), 1.0 / weight), Prod(Prod(p.1, h(p.0)), 1.0 / weight));
      var T := Emit(parts, weight, area, row);
      assert T[..|T| - 1] == Emit(parts[..n], weight, area, row);
    }
  }

  lemma EmitPart(p: real, w: real, area: real, x: real)
    ensures Prod(Prod(Prod(p, w), area), x) == Prod(Prod(Prod(p, x), w), area)
  {
    hide Prod;
    ProdAssoc(Prod(p, w), area, x);
    ProdComm(area, x);
    ProdAssoc(Prod(p, w), x, area);
    ProdAssoc(p, w, x);
    ProdComm(w, x);
    ProdAssoc(p, x, w);
  }

  lemma {:induction false} PartFormConcat(p: seq<Part>, q: seq<Part>, h: int -> real)
    ensures PartForm(p + q, h) == PartForm(p, h) + PartForm(q, h)
  {
    hide Prod;
    if |q| == 0 {
      assert p + q == p;
    } else {
      PartFormConcat(p, q[..|q| - 1], h);
      assert (p + q)[..|p + q| - 1] == p + q[..|q| - 1];
    }
  }

  /** h gives the values of the field q by cell number, from 0. */
  ghost predicate ByNumber(a: HntrSpec, q: (int, int) -> real, h: int -> real)
  {
    forall i, j :: 1 <= i <= a.im && 1 <= j <= a.jm ==> q(i, j) == h(Index(CellNumber(a.im, i, j)))
  }

  lemma {:induction false} RowPartForm(c: Cuts, q: (int, int) -> real, h: int -> real, ib: int, jb: int, ja: int,
                                       k: int)
    requires c.Done() && ByNumber(c.a, q, h) && 1 <= ib <= c.b.im && 1 <= jb <= c.b.jm && 1 <= ja <= c.a.jm
    ensures c.a.im >= 1 && c.ew.HasCells(|c.ew.min| - 1) && ib < |c.ew.min|
    ensures c.ns.HasCells(|c.ns.min| - 1) && jb < |c.ns.min| && |c.ea| > 0
    ensures c.ew.min[ib] <= k ==>
      PartForm(RowParts(c, ib, jb, ja, k), h)
      == Prod(c.ns.Part(RowWidth(c.ea), jb, ja),
              RangeSum(c.ew.min[ib], k, ColumnTerm(c.a.im, c.ew, q, ib, ja)))
    decreases k
  {
    hide Prod, Cuts.Done, ColumnTerm, RowWidth, Sweep.Part, Wrap, CellNumber, Index;
    CellRanges(c, ib, jb);
    DoneHasCells(c, ib, jb);
    var g := c.ns.Part(RowWidth(c.ea), jb, ja);
    var t := ColumnTerm(c.a.im, c.ew, q, ib, ja);
    var lo := c.ew.min[ib];
    if k <= lo {
      RangeSumEmpty(lo, k, t);
      ProdConst(g);
    } else {
      RowPartForm(c, q, h, ib, jb, ja, k - 1);
      ColumnStep(c.a.im, c.ew, q, ib, ja, lo, k - 1, g);
      WrapPeriod(c.a.im, k - 1);
      var r := RowParts(c, ib, jb, ja, k);
      assert r[..|r| - 1] == RowParts(c, ib, jb, ja, k - 1);
    }
  }

  lemma {:induction false} CellPartForm(c: Cuts, q: (int, int) -> real, h: int -> real, ib: int, jb: int, ja: int)
    requires c.Done() && ByNumber(c.a, q, h) && 1 <= ib <= c.b.im && 1 <= jb <= c.b.jm && ja <= c.a.jm + 1
    ensures c.a.im >= 1 && |c.ea| > 0 && c.ns.HasCells(|c.ns.min| - 1) && jb < |c.ns.min|
    ensures c.ns.min[jb] <= ja ==>
      PartForm(CellParts(c, ib, jb, ja), h)
      == RangeSum(c.ns.min[jb], ja, RowTerm(c.a.im, c.ew, c.ea, c.ns, q, ib, jb))
    decreases ja
  {
    hide Prod, Cuts.Done, RowTerm, ColumnTerm, RowWidth, Sweep.Part, RowParts, ByNumber;
    CellRanges(c, ib, jb);
    DoneHasCells(c, ib, jb);
    var t := RowTerm(c.a.im, c.ew, c.ea, c.ns, q, ib, jb);
    if ja <= c.ns.min[jb] {
      RangeSumEmpty(c.ns.min[jb], ja, t);
    } else {
      CellPartForm(c, q, h, ib, jb, ja - 1);
      RowPartForm(c, q, h, ib, jb, ja - 1, c.ew.max[ib] + 1);
      RowStep(c.a.im, c.ew, c.ea, c.ns, q, ib, jb, ja - 1);
      PartFormConcat(CellParts(c, ib, jb, ja - 1), RowParts(c, ib, jb, ja - 1, c.ew.max[ib] + 1), h);
    }
  }

  // ---------------------------------------------------------------- the weight of a B cell

  lemma UnitColumn(c: Cuts, ib: int, ja: int)
    requires c.Done() && 1 <= ib <= c.b.im && ja >= 1
    ensures c.a.im >= 1 && ColumnField(c.a.im, c.ew, UnitField(), ib)(ja) == c.ew.Row(One, One, ib)
  {
    hide Prod, EdgeA, EdgeB, Sweep.Row, SameCut;
    SweepLink(c.a, c.b, c.ew, ib);
    var h := Around(c.a.im, Slice(UnitField(), ja));
    RowSame(c.ew, One, h, One, ib);
  }

  /** WEIGHT of a B cell: the number of A columns in it times its sine extent, for any offsets. */
  lemma CellWeightIs(c: Cuts, ib: int, jb: int)
    requires c.Done() && 1 <= ib <= c.b.im && 1 <= jb <= c.b.jm
    ensures Prod(c.b.im as real, c.Integral(UnitField(), ib, jb)) == Prod(c.a.im as real, c.eb[jb] - c.eb[jb - 1])
    ensures c.Integral(UnitField(), ib, jb) > 0.0
  {
    hide Prod, EastWestDone, NorthSouthDone, ColumnField, Sweep.Row, RowWidth;
    CellRanges(c, ib, jb);
    var f := c.ew.Row(One, One, ib);
    var extent := c.eb[jb] - c.eb[jb - 1];
    var field := ColumnField(c.a.im, c.ew, UnitField(), ib);
    forall ja | c.ns.min[jb] <= ja <= c.ns.max[jb] ensures field(ja) == f {
      UnitColumn(c, ib, ja);
    }
    RowSame(c.ns, RowWidth(c.ea), field, _ => f, jb);
    RowConst(c.ns, RowWidth(c.ea), f, jb);
    ColumnWidth(c.a, c.b, c.ew, ib);
    RowExtent(c.ea, c.eb, c.ns, jb);
    ProdAssoc(c.b.im as real, f, extent);
    ExtentPositive(c, jb);
    BothPositive(c.a.im as real, extent, c.b.im as real, c.Integral(UnitField(), ib, jb));
  }

  lemma ExtentPositive(c: Cuts, jb: int)
    requires c.Done() && 1 <= jb <= c.b.jm
    ensures c.eb[jb - 1] < c.eb[jb]
  {
  }

  lemma BothPositive(a: real, e: real, b: real, w: real)
    requires a > 0.0 && e > 0.0 && b > 0.0 && Prod(b, w) == Prod(a, e)
    ensures w > 0.0
  {
  }

  lemma RowConst(s: Sweep, w: int -> real, f: real, b: int)
    requires 0 <= b < |s.min| && s.HasCells(|s.min| - 1)
    ensures s.Row(w, _ => f, b) == Prod(f, s.Row(w, One, b))
  {
    hide Prod, Sweep.Part;
    forall k: int ensures Prod(s.Part(w, b, k), f) == Prod(f, Prod(s.Part(w, b, k), One(k))) {
      ProdConst(s.Part(w, b, k));
      ProdComm(f, s.Part(w, b, k));
    }
    RangeSumScale(s.min[b], s.max[b] + 1, f, k => Prod(s.Part(w, b, k), One(k)), k => Prod(s.Part(w, b, k), f));
    RowIs(s, w, _ => f, b, k => Prod(s.Part(w, b, k), f));
    RowIs(s, w, One, b, k => Prod(s.Part(w, b, k), One(k)));
  }

  lemma RowIs(s: Sweep, w: int -> real, h: int -> real, b: int, f: int -> real)
    requires 0 <= b < |s.min| && s.HasCells(|s.min| - 1)
    requires forall k :: f(k) == Prod(s.Part(w, b, k), h(k))
    ensures s.Row(w, h, b) == RangeSum(s.min[b], s.max[b] + 1, f)
  {
    hide Prod, Sweep.Part;
    RangeSumSame(s.min[b], s.max[b] + 1, k => Prod(s.Part(w, b, k), h(k)), f);
  }

  // ---------------------------------------------------------------- one B cell of the matrix

  /** The matrix entries of B cell (ib, jb) of the given area. */
  ghost function CellEntries(c: Cuts, area: real, ib: int, jb: int): Triplets
    requires c.Done() && 1 <= ib <= c.b.im && 1 <= jb <= c.b.jm
  {
    CellWeightIs(c, ib, jb);
    CellRanges(c, ib, jb);
    Emit(CellParts(c, ib, jb, c.ns.max[jb] + 1), c.Integral(UnitField(), ib, jb), area,
         Index(CellNumber(c.b.im, ib, jb)))
  }

  /**
   The row of a B cell, applied to a field over the A cells, gives the area of the cell times the mean of the field
   over it: its integral by the number of A cells in it.
   */
  lemma CellEntriesAct(c: Cuts, area: real, q: (int, int) -> real, h: int -> real, ib: int, jb: int)
    requires c.Done() && ByNumber(c.a, q, h) && 1 <= ib <= c.b.im && 1 <= jb <= c.b.jm
    ensures Prod(c.Integral(UnitField(), ib, jb), EntryForm(CellEntries(c, area, ib, jb), h))
         == Prod(area, c.Integral(q, ib, jb))
  {
    hide Prod, Cuts.Done, RowTerm, CellParts, CellIntegral, ByNumber;
    CellRanges(c, ib, jb);
    DoneHasCells(c, ib, jb);
    CellWeightIs(c, ib, jb);
    var parts, weight := CellParts(c, ib, jb, c.ns.max[jb] + 1), c.Integral(UnitField(), ib, jb);
    EmitForm(parts, weight, area, Index(CellNumber(c.b.im, ib, jb)), h);
    CellPartForm(c, q, h, ib, jb, c.ns.max[jb] + 1);
    CellIntegralIs(c.a.im, c.ew, c.ea, c.ns, q, ib, jb);
    WeightCancels(weight, c.Integral(q, ib, jb), area);
  }

  lemma WeightCancels(w: real, v: real, area: real)
    requires w != 0.0
    ensures Prod(w, Prod(Prod(v, 1.0 / w), area)) == Prod(area, v)
  {
    hide Prod;
    ProdAssoc(w, Prod(v, 1.0 / w), area);
    ProdAssoc(w, v, 1.0 / w);
    ProdComm(w, v);
    ProdAssoc(v, w, 1.0 / w);
    ProdInverse(w);
    ProdConst(v);
    ProdComm(v, area);
  }

  /** The row of every included B cell adds up to the area of the cell; with area 1, the matrix is scaled. */
  lemma CellEntriesTotal(c: Cuts, area: real, ib: int, jb: int)
    requires c.Done() && 1 <= ib <= c.b.im && 1 <= jb <= c.b.jm
    ensures ValueSum(CellEntries(c, area, ib, jb)) == area
  {
    hide Prod, Cuts.Done, CellEntries, Cuts.Integral;
    CellEntriesAct(c, area, UnitField(), One, ib, jb);
    CellWeightIs(c, ib, jb);
    UnitForm(CellEntries(c, area, ib, jb));
    SameFactor(c.Integral(UnitField(), ib, jb), ValueSum(CellEntries(c, area, ib, jb)), area);
  }

  lemma SameFactor(w: real, v: real, area: real)
    requires w != 0.0 && Prod(w, v) == Prod(area, w)
    ensures v == area
  {
    assert w * (v - area) == 0.0;
  }

  // ---------------------------------------------------------------- the whole matrix

  /** The matrix rows of the B cells with 0-based number below n that are included. */
  ghost function OverlapUpTo(c: Cuts, area: seq<real>, includeB: int -> bool, n: int): Triplets
    requires c.Done() && |area| == c.b.jm + 1 && n <= Times(c.b.im, c.b.jm)
    decreases n
  {
    if n <= 0 then []
    else
      CellOfNumber(c, n - 1);
      OverlapUpTo(c, area, includeB, n - 1)
      + if includeB(n - 1)
        then CellEntries(c, area[Quot(n - 1, c.b.im) + 1], Rem(n - 1, c.b.im) + 1, Quot(n - 1, c.b.im) + 1)
        else []
  }

  lemma CellOfNumber(c: Cuts, n: int)
    requires c.Done() && 0 <= n < Times(c.b.im, c.b.jm)
    ensures c.b.im >= 1 && 1 <= Rem(n, c.b.im) + 1 <= c.b.im && 1 <= Quot(n, c.b.im) + 1 <= c.b.jm
    ensures CellNumber(c.b.im, Rem(n, c.b.im) + 1, Quot(n, c.b.im) + 1) == n + 1
  {
    hide Quot, Rem, Times, EastWestDone, NorthSouthDone;
    DivMod(n, c.b.im);
    QuotBound(n, c.b.im, c.b.jm);
    TimesFacts(Quot(n, c.b.im), c.b.im, 0);
  }

  /** One step of the loops of matrix() over the B cells. */
  lemma OverlapNext(c: Cuts, area: seq<real>, includeB: int -> bool, ib: int, jb: int)
    requires c.Done() && |area| == c.b.jm + 1 && 1 <= ib <= c.b.im && 1 <= jb <= c.b.jm
    ensures var n := CellNumber(c.b.im, ib, jb) - 1;
            0 <= n < Times(c.b.im, c.b.jm)
            && OverlapUpTo(c, area, includeB, n + 1)
               == OverlapUpTo(c, area, includeB, n)
                  + if includeB(n) then CellEntries(c, area[jb], ib, jb) else []
  {
    hide Quot, Rem, Times, Cuts.Done, CellEntries, CellNumber;
    CellNumberRange(c.b.im, c.b.jm, ib, jb);
    CellNumberInverse(c.b.im, ib, jb);
  }

  lemma NoCells(c: Cuts, area: seq<real>, includeB: int -> bool)
    requires c.Done() && |area| == c.b.jm + 1
    ensures Times(c.b.im, c.b.jm) >= 0 && OverlapUpTo(c, area, includeB, 0) == []
  {
    hide Cuts.Done, Times, Quot, Rem, CellEntries;
    TimesNonNegative(c.b.im, c.b.jm);
  }

  // ---------------------------------------------------------------- 2:1 nested grids

  /** The cuts of an even ocean grid (as B) by its atmosphere grid (as A). */
  ghost predicate Nested(c: Cuts)
  {
    c.Done() && Even(c.b) && c.a == CoarseSpec(c.b) && NestedRows(c.ea, c.eb)
  }

  /** 0-based number of the coarse cell that contains the fine cell n. */
  function Parent(im: int, n: int): nat
    requires im >= 1
  {
    Index(CellNumber(im / 2, (Rem(n, im) + 2) / 2, (Quot(n, im) + 2) / 2))
  }

  /** matrix() visits one A cell for a fine B cell: its parent. */
  lemma NestedParts(c: Cuts, n: int) returns (p: Part)
    requires Nested(c) && 0 <= n < Times(c.b.im, c.b.jm)
    ensures c.b.im >= 1 && 1 <= Rem(n, c.b.im) + 1 <= c.b.im && 1 <= Quot(n, c.b.im) + 1 <= c.b.jm
    ensures Quot(n, c.b.im) + 1 < |c.ns.max|
    ensures p.0 == Parent(c.b.im, n)
    ensures CellParts(c, Rem(n, c.b.im) + 1, Quot(n, c.b.im) + 1, c.ns.max[Quot(n, c.b.im) + 1] + 1) == [p]
  {
    hide Quot, Rem, Times, EastWestDone, NorthSouthDone, Prod, NestedRows, CellNumber, Wrap, RowWidth, Sweep.Part,
      RowParts, CellParts, Index;
    CellOfNumber(c, n);
    var ib, jb := Rem(n, c.b.im) + 1, Quot(n, c.b.im) + 1;
    DoneHasCells(c, ib, jb);
    NestedColumn(c.b, c.ew, ib);
    NestedRow(c.ea, c.eb, c.ns, jb);
    WrapPeriod(c.a.im, (ib + 1) / 2);
    p := OneCellParts(c, ib, jb, (ib + 1) / 2);
  }

  lemma OneCellParts(c: Cuts, ib: int, jb: int, ia: int) returns (p: Part)
    requires c.Done() && 1 <= ib <= c.b.im && 1 <= jb <= c.b.jm
    requires ib < |c.ew.min| == |c.ew.max| && c.ew.min[ib] == c.ew.max[ib] >= 1
    requires jb < |c.ns.min| == |c.ns.max| && c.ns.min[jb] == c.ns.max[jb] >= 1
    requires c.a.im >= 1 && Wrap(c.a.im, c.ew.min[ib]) == ia
    ensures p.0 == Index(CellNumber(c.a.im, ia, c.ns.min[jb]))
    ensures CellParts(c, ib, jb, c.ns.max[jb] + 1) == [p]
  {
    hide Cuts.Done, Prod, CellNumber, Wrap, RowWidth, Sweep.Part, Index;
    DoneHasCells(c, ib, jb);
    var k, ja := c.ew.min[ib], c.ns.min[jb];
    p := (Index(CellNumber(c.a.im, ia, ja)), Prod(c.ew.Part(One, ib, k), c.ns.Part(RowWidth(c.ea), jb, ja)));
    assert RowParts(c, ib, jb, ja, k) == [];
    assert RowParts(c, ib, jb, ja, k + 1) == [p];
    assert CellParts(c, ib, jb, ja) == [];
  }

  lemma {:induction false} NestedCell(c: Cuts, area: real, n: int)
    requires Nested(c) && 0 <= n < Times(c.b.im, c.b.jm)
    ensures c.b.im >= 1 && 1 <= Rem(n, c.b.im) + 1 <= c.b.im && 1 <= Quot(n, c.b.im) + 1 <= c.b.jm
    ensures CellEntries(c, area, Rem(n, c.b.im) + 1, Quot(n, c.b.im) + 1) == [Entry(n, Parent(c.b.im, n), area)]
  {
    hide Quot, Rem, Times, Cuts.Done, Prod, NestedRows, CellNumber, Cuts.Integral, Parent, CellParts, Emit;
    var p := NestedParts(c, n);
    CellOfNumber(c, n);
    var ib, jb := Rem(n, c.b.im) + 1, Quot(n, c.b.im) + 1;
    CellWeightIs(c, ib, jb);
    CellEntriesTotal(c, area, ib, jb);
    EmitOne(p, c.Integral(UnitField(), ib, jb), area, n);
  }

  lemma EmitOne(p: Part, weight: real, area: real, row: nat)
    requires weight != 0.0
    ensures |Emit([p], weight, area, row)| == 1
    ensures Emit([p], weight, area, row) == [Entry(row, p.0, ValueSum(Emit([p], weight, area, row)))]
  {
    hide Prod;
    assert [p][..0] == [];
    assert Emit([p], weight, area, row) == [Entry(row, p.0, Prod(Prod(p.1, 1.0 / weight), area))];
    var T := Emit([p], weight, area, row);
    assert T[..0] == [];
  }

  /** The overlap matrix of nested grids: each included fine cell lies, with its whole area, in its parent. */
  ghost function NestedUpTo(im: int, area: seq<real>, includeB: int -> bool, n: int): Triplets
    requires im >= 1 && (forall k :: 0 <= k < n ==> 0 <= Quot(k, im) + 1 < |area|)
    decreases n
  {
    if n <= 0 then []
    else
      NestedUpTo(im, area, includeB, n - 1)
      + if includeB(n - 1) then [Entry(n - 1, Parent(im, n - 1), area[Quot(n - 1, im) + 1])] else []
  }

  lemma {:induction false} NestedOverlap(c: Cuts, area: seq<real>, includeB: int -> bool, n: int)
    requires Nested(c) && |area| == c.b.jm + 1 && n <= Times(c.b.im, c.b.jm)
    ensures c.b.im >= 1 && forall k :: 0 <= k < n ==> 0 <= Quot(k, c.b.im) + 1 < |area|
    ensures OverlapUpTo(c, area, includeB, n) == NestedUpTo(c.b.im, area, includeB, n)
    decreases n
  {
    hide Quot, Rem, Times, Cuts.Done, CellEntries, Parent, NestedRows, Even;
    NestedSizes(c);
    forall k | 0 <= k < n ensures 0 <= Quot(k, c.b.im) + 1 < |area| {
      CellOfNumber(c, k);
    }
    if n > 0 {
      NestedOverlap(c, area, includeB, n - 1);
      NestedCell(c, area[Quot(n - 1, c.b.im) + 1], n - 1);
    }
  }

  lemma NestedSizes(c: Cuts)
    requires Nested(c)
    ensures c.Done() && c.b.im >= 1
  {
  }

  /** Equal latitudes have equal sines, so the row edges of make_hntrA's grid nest. */
  lemma RowsNest(o: HntrSpec, sine: real -> real, ea: seq<real>, eb: seq<real>)
    requires Even(o) && RowEdges(ea) && RowEdges(eb)
    requires SinesOfEdges(sine, CoarseSpec(o), ea) && SinesOfEdges(sine, o, eb)
    ensures NestedRows(ea, eb)
  {
    hide HntrSpec.Latitude, Prod;
    forall k | 0 <= k < |ea| ensures ea[k] == eb[2 * k] {
      NestedLatitude(o, k);
      assert CoarseSpec(o).IsLatitude(k, CoarseSpec(o).Latitude(k)) && o.IsLatitude(2 * k, o.Latitude(2 * k));
    }
  }
}
