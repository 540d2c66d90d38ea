/**
 What the overlaps of two latitude/longitude grids add up to: conservation of integrals over the sphere,
 the geometric meaning of the east-west and north-south cuts, and their sums.
 */
module HntrIntegrals {
  import opened Vectors
  import opened Sums
  import opened Sweeps
  import opened HntrSweeps
  import opened Ints

  /** Number of cell (i, j) of a grid with im columns, counted from 1. */
  function CellNumber(im: int, i: int, j: int): int
  {
    i + Times(im, j - 1)
  }

  lemma CellNumberRange(im: int, jm: int, i: int, j: int)
    requires 1 <= i <= im && 1 <= j <= jm
    ensures 1 <= CellNumber(im, i, j) <= Times(im, jm)
  {
    MulMonotone(j - 1, jm - 1, im);
    MulMonotone(0, j - 1, im);
  }

  lemma CellNumberInverse(im: int, i: int, j: int)
    requires 1 <= i <= im && 1 <= j
    ensures Quot(CellNumber(im, i, j) - 1, im) + 1 == j && Rem(CellNumber(im, i, j) - 1, im) + 1 == i
  {
    hide *;
    CellNumberIs(im, i, j);
    TimesFacts(im, j - 1, 0);
    QuotRemUnique(j - 1, im, i - 1);
  }

  lemma CellNumberIs(im: int, i: int, j: int)
    ensures CellNumber(im, i, j) == i + Times(im, j - 1)
  {
  }

  function Mean(weight: real, value: real, datmis: real): real
  {
    if weight == 0.0 then datmis else value / weight
  }

  /** Weight of A cell ija: wtm * WTA + wtb. */
  function CellWeight(wtm: real, wtb: real, wta: seq<real>, ija: int): real
  {
    if 1 <= ija <= |wta| then Prod(wtm, wta[ija - 1]) + wtb else 0.0
  }

  /** Weight times value of A cell ija. */
  function CellValue(wtm: real, wtb: real, wta: seq<real>, a: seq<real>, ija: int): real
  {
    if 1 <= ija <= |a| then Prod(CellWeight(wtm, wtb, wta, ija), a[ija - 1]) else 0.0
  }

  /** The two fields that regrid integrates, as functions of the A cell. */
  ghost function WeightField(im: int, wtm: real, wtb: real, wta: seq<real>): (int, int) -> real
  {
    (i, j) => CellWeight(wtm, wtb, wta, CellNumber(im, i, j))
  }

  ghost function ValueField(im: int, wtm: real, wtb: real, wta: seq<real>, a: seq<real>): (int, int) -> real
  {
    (i, j) => CellValue(wtm, wtb, wta, a, CellNumber(im, i, j))
  }

  ghost function UnitField(): (int, int) -> real
  {
    (i, j) => 1.0
  }

  lemma CellNumberNext(im: int, i: int, j: int)
    ensures CellNumber(im, i + 1, j) == CellNumber(im, i, j) + 1
    ensures CellNumber(im, im + 1, j) == Times(im, j) + 1
    ensures CellNumber(im, 1, j) == Times(im, j - 1) + 1
    ensures CellNumber(im, 1, 1) == 1
  {
  }

  /** Sum over the cells of a grid with im columns and jm rows. */
  ghost function GridSum(im: int, jm: int, f: (int, int) -> real): real
  {
    RangeSum(1, jm + 1, j => RangeSum(1, im + 1, Slice(f, j)))
  }

  lemma GridSumPlus(im: int, jm: int, f: (int, int) -> real, g: (int, int) -> real, s: (int, int) -> real)
    requires forall i, j :: 1 <= i <= im && 1 <= j <= jm ==> s(i, j) == f(i, j) + g(i, j)
    ensures GridSum(im, jm, s) == GridSum(im, jm, f) + GridSum(im, jm, g)
  {
    forall j | 1 <= j < jm + 1
      ensures RangeSum(1, im + 1, Slice(s, j)) == RangeSum(1, im + 1, Slice(f, j)) + RangeSum(1, im + 1, Slice(g, j))
    {
      RangeSumPlus(1, im + 1, Slice(f, j), Slice(g, j), Slice(s, j));
    }
    RangeSumPlus(1, jm + 1, j => RangeSum(1, im + 1, Slice(f, j)), j => RangeSum(1, im + 1, Slice(g, j)),
                 j => RangeSum(1, im + 1, Slice(s, j)));
  }

  lemma GridSumZero(im: int, jm: int, f: (int, int) -> real)
    requires forall i, j :: 1 <= i <= im && 1 <= j <= jm ==> f(i, j) == 0.0
    ensures GridSum(im, jm, f) == 0.0
  {
    GridSumPlus(im, jm, f, f, f);
  }

  /** Everything that the two sweeps compute for grids a and b; ea and eb are the sines of the row edges. */
  datatype Cuts = Cuts(a: HntrSpec, b: HntrSpec, ew: Sweep, ea: seq<real>, eb: seq<real>, ns: Sweep) {
    ghost predicate Done()
    {
      && a.Valid() && b.Valid() && |ea| == a.jm + 1 && |eb| == b.jm + 1
      && EastWestDone(a, b, ew) && NorthSouthDone(ea, eb, ns)
    }

    /** Integral of a field over B cell (ib, jb). */
    ghost function Integral(q: (int, int) -> real, ib: int, jb: int): real
    {
      if a.im >= 1 && |ea| > 0 then CellIntegral(a.im, ew, ea, ns, q, ib, jb) else 0.0
    }
  }

  /** The value that regrid stores for the B cell with 0-based number n. */
  ghost function Regridded(c: Cuts, datmis: real, wtm: real, wtb: real, wta: seq<real>, a: seq<real>, n: int): real
    requires c.b.im >= 1
  {
    var ib, jb := Rem(n, c.b.im) + 1, Quot(n, c.b.im) + 1;
    Mean(c.Integral(WeightField(c.a.im, wtm, wtb, wta), ib, jb),
         c.Integral(ValueField(c.a.im, wtm, wtb, wta, a), ib, jb), datmis)
  }

  // ---------------------------------------------------------------- integrals over cells of the sphere

  /** A field q(ia, ja) on one row of A cells. */
  ghost function Slice(q: (int, int) -> real, ja: int): int -> real
  {
    ia => q(ia, ja)
  }

  /** Integral of q along the part of each A row that lies in column ib of B. */
  ghost function ColumnField(im: nat, ew: Sweep, q: (int, int) -> real, ib: int): int -> real
    requires im >= 1
  {
    ja => ew.Row(One, Around(im, Slice(q, ja)), ib)
  }

  /** Integral of q over B cell (ib, jb): what matrix() accumulates for q. */
  ghost function CellIntegral(im: nat, ew: Sweep, ea: seq<real>, ns: Sweep, q: (int, int) -> real, ib: int,
                              jb: int): real
    requires im >= 1 && |ea| > 0
  {
    ns.Row(RowWidth(ea), ColumnField(im, ew, q, ib), jb)
  }

  /** The contribution of A cell k (counted around the globe) of row ja to column ib. */
  ghost function ColumnTerm(im: nat, ew: Sweep, q: (int, int) -> real, ib: int, ja: int): int -> real
    requires im >= 1 && ew.HasCells(|ew.min| - 1) && 0 <= ib < |ew.min|
  {
    k => Prod(ew.Part(One, ib, k), Around(im, Slice(q, ja))(k))
  }

  /** The contribution of row ja to B cell (ib, jb). */
  ghost function RowTerm(im: nat, ew: Sweep, ea: seq<real>, ns: Sweep, q: (int, int) -> real, ib: int,
                         jb: int): int -> real
    requires im >= 1 && |ea| > 0 && ns.HasCells(|ns.min| - 1) && 0 <= jb < |ns.min|
  {
    ja => Prod(ns.Part(RowWidth(ea), jb, ja), ColumnField(im, ew, q, ib)(ja))
  }

  lemma ColumnFieldIs(im: nat, ew: Sweep, q: (int, int) -> real, ib: int, ja: int)
    requires im >= 1 && ew.HasCells(|ew.min| - 1) && 0 <= ib < |ew.min|
    ensures ColumnField(im, ew, q, ib)(ja) == RangeSum(ew.min[ib], ew.max[ib] + 1, ColumnTerm(im, ew, q, ib, ja))
  {
    hide Prod, Around, Sweep.Part;
    var h := Around(im, Slice(q, ja));
    RangeSumSame(ew.min[ib], ew.max[ib] + 1, k => Prod(ew.Part(One, ib, k), h(k)), ColumnTerm(im, ew, q, ib, ja));
  }

  lemma CellIntegralIs(im: nat, ew: Sweep, ea: seq<real>, ns: Sweep, q: (int, int) -> real, ib: int, jb: int)
    requires im >= 1 && |ea| > 0 && ns.HasCells(|ns.min| - 1) && 0 <= jb < |ns.min|
    ensures CellIntegral(im, ew, ea, ns, q, ib, jb)
         == RangeSum(ns.min[jb], ns.max[jb] + 1, RowTerm(im, ew, ea, ns, q, ib, jb))
  {
    hide Prod, ColumnField, RowWidth, Sweep.Part;
    var w, h := RowWidth(ea), ColumnField(im, ew, q, ib);
    RangeSumSame(ns.min[jb], ns.max[jb] + 1, k => Prod(ns.Part(w, jb, k), h(k)), RowTerm(im, ew, ea, ns, q, ib, jb));
  }

  /** One addA call: A cell k of row ja is added with weight f * g. */
  lemma ColumnStep(im: nat, ew: Sweep, q: (int, int) -> real, ib: int, ja: int, lo: int, k: int, g: real)
    requires im >= 1 && ew.HasCells(|ew.min| - 1) && 0 <= ib < |ew.min| && 1 <= lo <= k
    ensures Prod(g, RangeSum(lo, k, ColumnTerm(im, ew, q, ib, ja)))
          + Prod(Prod(ew.Part(One, ib, k), g), q(Wrap(im, k), ja))
         == Prod(g, RangeSum(lo, k + 1, ColumnTerm(im, ew, q, ib, ja)))
  {
    hide *;
    var t := ColumnTerm(im, ew, q, ib, ja);
    var f := ew.Part(One, ib, k);
    RangeSumLast(lo, k, t);
    ColumnTermAt(im, ew, q, ib, ja, k);
    ProdPlus(g, RangeSum(lo, k, t), t(k));
    ProdAssoc(g, f, q(Wrap(im, k), ja));
    ProdComm(f, g);
  }

  lemma ColumnTermAt(im: nat, ew: Sweep, q: (int, int) -> real, ib: int, ja: int, k: int)
    requires im >= 1 && ew.HasCells(|ew.min| - 1) && 0 <= ib < |ew.min| && 1 <= k
    ensures ColumnTerm(im, ew, q, ib, ja)(k) == Prod(ew.Part(One, ib, k), q(Wrap(im, k), ja))
  {
    hide Prod, Sweep.Part, Wrap;
    var g := Slice(q, ja);
    assert Around(im, g)(k) == g(Wrap(im, k));
    assert g(Wrap(im, k)) == q(Wrap(im, k), ja);
  }

  /** All A cells of row ja have been added with extent g. */
  lemma RowStep(im: nat, ew: Sweep, ea: seq<real>, ns: Sweep, q: (int, int) -> real, ib: int, jb: int, ja: int)
    requires im >= 1 && |ea| > 0 && ns.HasCells(|ns.min| - 1) && 0 <= jb < |ns.min|
    requires ew.HasCells(|ew.min| - 1) && 0 <= ib < |ew.min| && ns.min[jb] <= ja
    ensures RangeSum(ns.min[jb], ja, RowTerm(im, ew, ea, ns, q, ib, jb))
            + Prod(ns.Part(RowWidth(ea), jb, ja),
                   RangeSum(ew.min[ib], ew.max[ib] + 1, ColumnTerm(im, ew, q, ib, ja)))
         == RangeSum(ns.min[jb], ja + 1, RowTerm(im, ew, ea, ns, q, ib, jb))
  {
    hide Prod, ColumnField, ColumnTerm, Sweep.Part, RowWidth;
    ColumnFieldIs(im, ew, q, ib, ja);
    RangeSumLast(ns.min[jb], ja, RowTerm(im, ew, ea, ns, q, ib, jb));
  }

  /** The loops of matrix() stay inside grid A. */
  lemma CellRanges(c: Cuts, ib: int, jb: int)
    requires c.Done() && 1 <= ib <= c.b.im && 1 <= jb <= c.b.jm
    ensures c.ew.HasCells(|c.ew.min| - 1) && c.ns.HasCells(|c.ns.min| - 1) && ib < |c.ew.min| && jb < |c.ns.min|
    ensures 1 <= c.ew.min[ib] <= c.ew.max[ib] && 1 <= c.ns.min[jb] <= c.ns.max[jb] <= c.a.jm
  {
    hide Prod, EdgeA, EdgeB, RowWidth, SameCut;
    SweepLink(c.a, c.b, c.ew, ib);
    RowLink(c.ea, c.eb, c.ns, jb);
    assert NorthernCut(c.ea, c.eb, c.ns, jb);
  }

  /** Sum over the B cells of row jb. */
  ghost function RowOfB(im: nat, ew: Sweep, ea: seq<real>, ns: Sweep, q: (int, int) -> real, imB: int, jb: int): real
    requires im >= 1 && |ea| > 0
  {
    RangeSum(1, imB + 1, ib => CellIntegral(im, ew, ea, ns, q, ib, jb))
  }

  /** Sum over all B cells. */
  ghost function TotalOverB(im: nat, ew: Sweep, ea: seq<real>, ns: Sweep, q: (int, int) -> real, imB: int,
                            jmB: int): real
    requires im >= 1 && |ea| > 0
  {
    RangeSum(1, jmB + 1, jb => RowOfB(im, ew, ea, ns, q, imB, jb))
  }

  ghost function RowTotals(im: nat, q: (int, int) -> real): int -> real
  {
    ja => RangeSum(1, im + 1, Slice(q, ja))
  }

  /** Integral of q over grid A: row extent times value, summed over all A cells. */
  ghost function TotalOverA(im: nat, ea: seq<real>, q: (int, int) -> real): real
    requires |ea| > 0
  {
    RowsIntegral(ea, RowTotals(im, q))
  }

  lemma RowOfBIsRow(a: HntrSpec, b: HntrSpec, ew: Sweep, ea: seq<real>, eb: seq<real>, ns: Sweep,
                    q: (int, int) -> real, jb: int)
    requires a.Valid() && EastWestDone(a, b, ew) && NorthSouthDone(ea, eb, ns) && 1 <= jb < |eb|
    ensures |ea| > 0
    ensures RowOfB(a.im, ew, ea, ns, q, b.im, jb) == ns.Row(RowWidth(ea), RowTotals(a.im, q), jb)
  {
    hide *;
    SpecSizes(a, b, ew);
    RowCounts(ea, eb, ns);
    LinkedSize(ns, |eb| - 1);
    var w := RowWidth(ea);
    var fields := (ib: int) => ColumnField(a.im, ew, q, ib);
    var h := RowTotals(a.im, q);
    forall k ensures h(k) == RangeSum(1, b.im + 1, i => fields(i)(k)) {
      EastWestTiles(a, b, ew, Slice(q, k));
      RowTotalsAt(a.im, q, k);
      SumOfColumns(a.im, ew, q, b.im, k, fields);
    }
    RowOfSums(ns, w, b.im, fields, h, jb);
    RowOfBIs(a.im, ew, ea, ns, q, b.im, jb, fields);
  }

  lemma RowTotalsAt(im: nat, q: (int, int) -> real, k: int)
    ensures RowTotals(im, q)(k) == RangeSum(1, im + 1, Slice(q, k))
  {
  }

  lemma SumOfColumns(im: nat, ew: Sweep, q: (int, int) -> real, n: int, k: int, fields: int -> (int -> real))
    requires im >= 1 && forall ib :: fields(ib) == ColumnField(im, ew, q, ib)
    ensures RangeSum(1, n + 1, i => fields(i)(k)) == ew.Rows(One, Around(im, Slice(q, k)), n)
  {
    hide Prod, Sweep.Row;
    RangeSumSame(1, n + 1, i => fields(i)(k), b => ew.Row(One, Around(im, Slice(q, k)), b));
  }

  lemma RowOfBIs(im: nat, ew: Sweep, ea: seq<real>, ns: Sweep, q: (int, int) -> real, n: int, jb: int,
                 fields: int -> (int -> real))
    requires im >= 1 && |ea| > 0 && forall ib :: fields(ib) == ColumnField(im, ew, q, ib)
    ensures RowOfB(im, ew, ea, ns, q, n, jb) == RangeSum(1, n + 1, i => ns.Row(RowWidth(ea), fields(i), jb))
  {
    hide Prod, Sweep.Row, ColumnField, RowWidth;
    RangeSumSame(1, n + 1, ib => CellIntegral(im, ew, ea, ns, q, ib, jb), i => ns.Row(RowWidth(ea), fields(i), jb));
  }

  /** The integrals over the B cells add up to the integral over the A cells. */
  lemma CellsConserve(a: HntrSpec, b: HntrSpec, ew: Sweep, ea: seq<real>, eb: seq<real>, ns: Sweep,
                      q: (int, int) -> real)
    requires a.Valid() && EastWestDone(a, b, ew) && NorthSouthDone(ea, eb, ns)
    ensures |ea| > 0 && |eb| > 0
    ensures TotalOverB(a.im, ew, ea, ns, q, b.im, |eb| - 1) == TotalOverA(a.im, ea, q)
  {
    hide *;
    SpecSizes(a, b, ew);
    RowCounts(ea, eb, ns);
    var w, h := RowWidth(ea), RowTotals(a.im, q);
    forall jb | 1 <= jb < |eb| ensures RowOfB(a.im, ew, ea, ns, q, b.im, jb) == ns.Row(w, h, jb) {
      RowOfBIsRow(a, b, ew, ea, eb, ns, q, jb);
    }
    TotalOverBIs(a.im, ew, ea, ns, q, b.im, |eb| - 1, h);
    NorthSouthTiles(ea, eb, ns, h);
    TotalOverAIs(a.im, ea, q);
  }

  lemma TotalOverAIs(im: nat, ea: seq<real>, q: (int, int) -> real)
    requires |ea| > 0
    ensures TotalOverA(im, ea, q) == RowsIntegral(ea, RowTotals(im, q))
  {
  }

  lemma TotalOverBIs(im: nat, ew: Sweep, ea: seq<real>, ns: Sweep, q: (int, int) -> real, imB: int, jmB: int,
                     h: int -> real)
    requires im >= 1 && |ea| > 0
    requires forall jb :: 1 <= jb < jmB + 1 ==> RowOfB(im, ew, ea, ns, q, imB, jb) == ns.Row(RowWidth(ea), h, jb)
    ensures TotalOverB(im, ew, ea, ns, q, imB, jmB) == ns.Rows(RowWidth(ea), h, jmB)
  {
    hide Prod, Sweep.Row, RowOfB, RowWidth;
    RangeSumSame(1, jmB + 1, jb => RowOfB(im, ew, ea, ns, q, imB, jb), jb => ns.Row(RowWidth(ea), h, jb));
  }

  // ---------------------------------------------------------------- geometry

  ghost function EdgesA(a: HntrSpec, b: HntrSpec): int -> real
  {
    k => EdgeA(a, b, k)
  }

  lemma EastWestEdges(a: HntrSpec, b: HntrSpec)
    requires a.Valid() && b.Valid()
    ensures Ascending(EdgesA(a, b))
    ensures forall c :: Prod(b.im as real, One(c)) == EdgesA(a, b)(c) - EdgesA(a, b)(c - 1)
  {
    hide Prod, EdgeA, EdgeB;
    forall j: int, k | j < k ensures EdgesA(a, b)(j) <= EdgesA(a, b)(k) {
      EdgeOrder(a, b, j, k);
    }
    forall c: int ensures Prod(b.im as real, One(c)) == EdgesA(a, b)(c) - EdgesA(a, b)(c - 1) {
      EdgeSteps(a, b, c - 1);
      ProdConst(b.im as real);
    }
  }

  /** The two cuts of B cell j lie at its two edges. */
  lemma CutsAtEdges(a: HntrSpec, b: HntrSpec, s: Sweep, j: int)
    requires a.Valid() && EastWestDone(a, b, s) && 1 <= j <= b.im && FirstEdgeWest(a, b)
    ensures s.HasCells(|s.min| - 1) && 1 <= j < |s.min| && s.min[j] <= s.max[j]
    ensures CutAt(EdgesA(a, b), b.im as real, s.min[j], s.low[j], EdgeB(a, b, j - 1))
    ensures CutAt(EdgesA(a, b), b.im as real, s.max[j], One(s.max[j]) - s.high[j], EdgeB(a, b, j))
  {
    hide Prod, EdgeA, EdgeB;
    assert WesternCut(a, b, s, j);
    EdgeOrderB(a, b, 0, j - 1);
    EdgeOrderB(a, b, 0, j);
    if j < b.im {
      assert EasternCut(a, b, s, j);
    } else {
      EdgeSteps(a, b, 0);
      EdgeSteps(a, b, s.max[j] - a.im);
      EdgeSteps(a, b, s.max[j] - a.im - 1);
    }
  }

  lemma EdgeOrderB(a: HntrSpec, b: HntrSpec, j: int, k: int)
    requires a.Valid() && j <= k
    ensures EdgeB(a, b, j) <= EdgeB(a, b, k)
  {
  }

  /** F is the geometric overlap of A cell k with B cell j, as a fraction of the A cell. */
  lemma EastWestIsOverlap(a: HntrSpec, b: HntrSpec, s: Sweep, j: int, k: int)
    requires a.Valid() && b.Valid() && EastWestDone(a, b, s) && 1 <= j <= b.im && FirstEdgeWest(a, b)
    ensures s.HasCells(|s.min| - 1) && 1 <= j < |s.min|
    ensures s.min[j] <= k <= s.max[j] ==>
              Prod(b.im as real, s.Part(One, j, k))
              == Overlap(EdgeA(a, b, k - 1), EdgeA(a, b, k), EdgeB(a, b, j - 1), EdgeB(a, b, j))
    ensures !(s.min[j] <= k <= s.max[j]) ==>
              Overlap(EdgeA(a, b, k - 1), EdgeA(a, b, k), EdgeB(a, b, j - 1), EdgeB(a, b, j)) == 0.0
  {
    hide Prod, EdgeA, EdgeB, EastWestDone, Ascending, CutAt, Overlap, Sweep.Part;
    EastWestEdges(a, b);
    CutsAtEdges(a, b, s, j);
    EdgeOrderB(a, b, j - 1, j);
    PartIsOverlap(s, One, EdgesA(a, b), b.im as real, j, k, EdgeB(a, b, j - 1), EdgeB(a, b, j));
  }

  /** No fraction of an A cell is negative. */
  ghost predicate ProperFractions(b: HntrSpec, s: Sweep)
    requires s.HasCells(b.im)
  {
    forall j, k :: 1 <= j <= b.im && s.min[j] <= k <= s.max[j] ==> s.Part(One, j, k) >= 0.0
  }

  /** If the first A edge lies east of the first B edge, the sweep starts in A cell 1, beyond its western edge. */
  lemma NegativeFraction(a: HntrSpec, b: HntrSpec, s: Sweep)
    requires a.Valid() && b.Valid() && EastWestDone(a, b, s) && !FirstEdgeWest(a, b)
    ensures s.max[b.im] == 1 + a.im && s.min[b.im] < s.max[b.im] && s.Part(One, b.im, s.max[b.im]) < 0.0
  {
    hide Prod, EdgeA, EdgeB;
    var n := b.im;
    var c := s.max[n] - a.im;
    EdgeOrder(a, b, 0, 1);
    EdgeOrder(a, b, 0, c - 1);
    assert c == 1;
    ScaledSign(b.im as real, 1.0 - s.high[n]);
    assert WesternCut(a, b, s, n);
    EdgeOrder(a, b, n - 1, n);
    EdgeSteps(a, b, 0);
    EdgeOrder(a, b, a.im, s.min[n] - 1);
  }

  /** The cuts are geometric exactly when the first A edge does not lie east of the first B edge. */
  lemma EastWestProper(a: HntrSpec, b: HntrSpec, s: Sweep)
    requires a.Valid() && b.Valid() && EastWestDone(a, b, s)
    ensures s.HasCells(b.im)
    ensures ProperFractions(b, s) <==> FirstEdgeWest(a, b)
  {
    hide Prod, EdgeA, EdgeB, Sweep.Part, FirstEdgeWest;
    if FirstEdgeWest(a, b) {
      forall j, k | 1 <= j <= b.im && s.min[j] <= k <= s.max[j] ensures s.Part(One, j, k) >= 0.0 {
        EastWestIsOverlap(a, b, s, j, k);
        ScaledSign(b.im as real, s.Part(One, j, k));
      }
    } else {
      NegativeFraction(a, b, s);
    }
  }

  /** Every overlap that the sweep visits is a real one. */
  ghost predicate PositiveFractions(b: HntrSpec, s: Sweep)
    requires s.HasCells(b.im)
  {
    forall j, k :: 1 <= j <= b.im && s.min[j] <= k <= s.max[j] ==> s.Part(One, j, k) > 0.0
  }

  /** Both edges of A cell k lie on the proper side of the edges of B cell j. */
  lemma VisitedCell(a: HntrSpec, b: HntrSpec, s: Sweep, j: int, k: int)
    requires a.Valid() && b.Valid() && EastWestDone(a, b, s) && 1 <= j <= b.im
    requires EdgeA(a, b, 0) < EdgeB(a, b, 0) && s.min[j] <= k <= s.max[j]
    ensures EdgeA(a, b, k - 1) < EdgeB(a, b, j) && EdgeB(a, b, j - 1) < EdgeA(a, b, k)
  {
    hide Prod, EdgeA, EdgeB, EastWestCut;
    assert WesternCut(a, b, s, j);
    EdgeOrder(a, b, s.min[j], k);
    EdgeOrder(a, b, k - 1, s.max[j] - 1);
    EdgeOrder(a, b, 0, j);
    if j < b.im {
      assert EasternCut(a, b, s, j);
    } else {
      EdgeSteps(a, b, 0);
      EdgeSteps(a, b, s.max[j] - a.im - 1);
    }
  }

  /** No empty ("stray") overlap is visited exactly when the first A edge lies west of the first B edge. */
  lemma EastWestPositive(a: HntrSpec, b: HntrSpec, s: Sweep)
    requires a.Valid() && b.Valid() && EastWestDone(a, b, s)
    ensures s.HasCells(b.im)
    ensures PositiveFractions(b, s) <==> EdgeA(a, b, 0) < EdgeB(a, b, 0)
  {
    hide Prod, EdgeA, EdgeB, Sweep.Part;
    if EdgeA(a, b, 0) < EdgeB(a, b, 0) {
      forall j, k | 1 <= j <= b.im && s.min[j] <= k <= s.max[j] ensures s.Part(One, j, k) > 0.0 {
        EastWestIsOverlap(a, b, s, j, k);
        VisitedCell(a, b, s, j, k);
        EdgeOrder(a, b, k - 1, k);
        EdgeOrder(a, b, j - 1, j);
        ScaledSign(b.im as real, s.Part(One, j, k));
      }
    } else if EdgeA(a, b, 0) == EdgeB(a, b, 0) {
      EmptyFraction(a, b, s);
    } else {
      NegativeFraction(a, b, s);
    }
  }

  lemma EmptyFraction(a: HntrSpec, b: HntrSpec, s: Sweep)
    requires a.Valid() && b.Valid() && EastWestDone(a, b, s) && EdgeA(a, b, 0) == EdgeB(a, b, 0)
    ensures s.min[b.im] < s.max[b.im] && s.Part(One, b.im, s.max[b.im]) == 0.0
  {
    hide Prod, EdgeA, EdgeB;
    var n := b.im;
    var c := s.max[n] - a.im;
    if c > 1 {
      EdgeOrder(a, b, 0, c - 1);
    }
    ScaledSign(b.im as real, 1.0 - s.high[n]);
    ScaledSign(b.im as real, s.high[n] - 1.0);
    ProdMinus(b.im as real, s.high[n], 1.0, 0.0);
    ProdMinus(b.im as real, 1.0, s.high[n], 0.0);
    ProdConst(b.im as real);
    assert WesternCut(a, b, s, n);
    EdgeOrder(a, b, n - 1, n);
    EdgeSteps(a, b, 0);
    EdgeOrder(a, b, a.im, s.min[n] - 1);
  }

  // ---------------------------------------------------------------- widths

  lemma {:induction false} CountUpTo(a: HntrSpec, b: HntrSpec, c: int, q: real, x: real)
    requires EastWestCut(a, b, c, q, x)
    ensures Prod(b.im as real, UpTo(One, One, c, q)) == x - EdgeA(a, b, 0)
  {
    hide Prod, EdgeA, EdgeB, UpTo;
    UnitWeight(One, c, q);
    ProdConst(q);
    CountCells(a, b, c);
    ProdPlus(b.im as real, RangeSum(1, c, One), q);
  }

  lemma {:induction false} CountCells(a: HntrSpec, b: HntrSpec, c: int)
    requires c >= 1
    ensures Prod(b.im as real, RangeSum(1, c, One)) == EdgeA(a, b, c - 1) - EdgeA(a, b, 0)
  {
    hide Prod, EdgeA, EdgeB;
    if c == 1 {
      ProdConst(b.im as real);
    } else {
      CountCells(a, b, c - 1);
      ProdPlus(b.im as real, RangeSum(1, c - 1, One), 1.0);
      ProdConst(b.im as real);
      EdgeSteps(a, b, c - 2);
    }
  }

  /** Every B column holds imA / imB A columns, for any offsets. */
  lemma ColumnWidth(a: HntrSpec, b: HntrSpec, s: Sweep, j: int)
    requires a.Valid() && b.Valid() && EastWestDone(a, b, s) && 1 <= j <= b.im
    ensures Prod(b.im as real, s.Row(One, One, j)) == a.im as real
  {
    hide Prod, EdgeA, EdgeB, UpTo, Sweep.Row, SameCut;
    SweepLink(a, b, s, j);
    RowIsDifference(s, One, One, j);
    assert WesternCut(a, b, s, j);
    CountUpTo(a, b, s.min[j], s.low[j], EdgeB(a, b, j - 1));
    if j < b.im {
      assert EasternCut(a, b, s, j);
      CountUpTo(a, b, s.max[j], 1.0 - s.high[j], EdgeB(a, b, j));
    } else {
      OneTurnEast(a, b, s.max[j] - a.im, 1.0 - s.high[j]);
    }
    EdgeSteps(a, b, j - 1);
    ProdMinus(b.im as real, s.End(One, One, j), s.Start(One, One, j), 0.0);
    ProdConst(b.im as real);
  }

  lemma OneTurnEast(a: HntrSpec, b: HntrSpec, c: int, q: real)
    requires EastWestCut(a, b, c, q, EdgeB(a, b, 0))
    ensures Prod(b.im as real, UpTo(One, One, c + a.im, q)) == EdgeB(a, b, b.im) - EdgeA(a, b, 0)
  {
    hide Prod, EdgeA, EdgeB, UpTo;
    EdgeSteps(a, b, 0);
    EdgeSteps(a, b, c - 1);
    UnitWeight(One, c + a.im, q);
    ProdConst(q);
    CountCells(a, b, c + a.im);
    ProdPlus(b.im as real, RangeSum(1, c + a.im, One), q);
  }

  /** Every B row holds its own extent of A rows. */
  lemma RowExtent(ea: seq<real>, eb: seq<real>, s: Sweep, j: int)
    requires NorthSouthDone(ea, eb, s) && 1 <= j < |eb|
    ensures |ea| > 0 && s.Row(RowWidth(ea), One, j) == eb[j] - eb[j - 1]
  {
    hide Prod, UpTo, Sweep.Row, RowWidth, RowsMeet, RowEdges;
    RowCounts(ea, eb, s);
    RowLink(ea, eb, s, j);
    RowIsDifference(s, RowWidth(ea), One, j);
    assert SouthernCut(ea, eb, s, j) && NorthernCut(ea, eb, s, j);
    RowUpTo(ea, s.min[j], s.low[j], eb[j - 1]);
    RowUpTo(ea, s.max[j], RowWidth(ea)(s.max[j]) - s.high[j], eb[j]);
  }

  lemma RowUpTo(ea: seq<real>, c: int, q: real, x: real)
    requires |ea| > 0 && NorthSouthCut(ea, c, q, x)
    ensures UpTo(RowWidth(ea), One, c, q) == x - ea[0]
  {
    hide Prod, RowWidth;
    ProdConst(q);
    forall k | 1 <= k < c ensures Prod(RowWidth(ea)(k), One(k)) == RowWidth(ea)(k) {
      ProdConst(RowWidth(ea)(k));
    }
    UpToIs(RowWidth(ea), One, c, q, RowWidth(ea));
    WidthSum(ea, c);
  }

  lemma {:induction false} WidthSum(ea: seq<real>, c: int)
    requires |ea| > 0 && 1 <= c <= |ea|
    ensures RangeSum(1, c, RowWidth(ea)) == ea[c - 1] - ea[0]
  {
    if c > 1 {
      WidthSum(ea, c - 1);
    }
  }

  ghost function RowEdgesOf(ea: seq<real>): int -> real
    requires |ea| > 0
  {
    k => RowEdge(ea, k)
  }

  lemma NorthSouthEdges(ea: seq<real>)
    requires RowEdges(ea)
    ensures Ascending(RowEdgesOf(ea))
    ensures forall c :: Prod(1.0, RowWidth(ea)(c)) == RowEdgesOf(ea)(c) - RowEdgesOf(ea)(c - 1)
  {
    hide Prod;
    forall c: int ensures Prod(1.0, RowWidth(ea)(c)) == RowEdgesOf(ea)(c) - RowEdgesOf(ea)(c - 1) {
      ProdConst(RowWidth(ea)(c));
    }
  }

  lemma RowCutAt(ea: seq<real>, c: int, q: real, x: real)
    requires |ea| > 0 && NorthSouthCut(ea, c, q, x)
    ensures CutAt(RowEdgesOf(ea), 1.0, c, q, x)
  {
    hide Prod;
    ProdConst(q);
  }

  lemma RowFacts(ea: seq<real>, eb: seq<real>, s: Sweep, j: int)
    requires NorthSouthDone(ea, eb, s) && 1 <= j < |eb|
    ensures |ea| > 0 && RowEdges(ea) && s.HasCells(|s.min| - 1) && 1 <= j < |s.min| && s.min[j] <= s.max[j]
    ensures eb[j - 1] <= eb[j]
    ensures NorthSouthCut(ea, s.min[j], s.low[j], eb[j - 1])
    ensures NorthSouthCut(ea, s.max[j], RowWidth(ea)(s.max[j]) - s.high[j], eb[j])
  {
    hide NorthSouthCut, RowWidth;
    assert SouthernCut(ea, eb, s, j) && NorthernCut(ea, eb, s, j);
  }

  /** G is the overlap, in sine of latitude, of A row k with B row j. */
  lemma NorthSouthIsOverlap(ea: seq<real>, eb: seq<real>, s: Sweep, j: int, k: int)
    requires NorthSouthDone(ea, eb, s) && 1 <= j < |eb|
    ensures |ea| > 0 && s.HasCells(|s.min| - 1) && 1 <= j < |s.min|
    ensures s.min[j] <= k <= s.max[j] ==>
              s.Part(RowWidth(ea), j, k) == Overlap(RowEdge(ea, k - 1), RowEdge(ea, k), eb[j - 1], eb[j])
    ensures !(s.min[j] <= k <= s.max[j]) ==> Overlap(RowEdge(ea, k - 1), RowEdge(ea, k), eb[j - 1], eb[j]) == 0.0
  {
    hide Prod, Overlap, Sweep.Part, RowEdges, RowEdge, RowWidth, NorthSouthDone, NorthSouthCut, Ascending, CutAt;
    RowFacts(ea, eb, s, j);
    NorthSouthEdges(ea);
    RowCutAt(ea, s.min[j], s.low[j], eb[j - 1]);
    RowCutAt(ea, s.max[j], RowWidth(ea)(s.max[j]) - s.high[j], eb[j]);
    PartIsOverlap(s, RowWidth(ea), RowEdgesOf(ea), 1.0, j, k, eb[j - 1], eb[j]);
    ProdConst(s.Part(RowWidth(ea), j, k));
  }

  /** Every row overlap that the sweep visits is a real one. */
  lemma NorthSouthPositive(ea: seq<real>, eb: seq<real>, s: Sweep, j: int, k: int)
    requires NorthSouthDone(ea, eb, s) && 1 <= j < |eb|
    ensures |ea| > 0 && s.HasCells(|s.min| - 1) && 1 <= j < |s.min|
    ensures s.min[j] <= k <= s.max[j] ==> 1 <= k < |ea| && s.Part(RowWidth(ea), j, k) > 0.0
  {
    hide Prod, Sweep.Part, RowWidth, NorthSouthCut;
    RowFacts(ea, eb, s, j);
    NorthSouthIsOverlap(ea, eb, s, j, k);
    if s.min[j] <= k <= s.max[j] {
      RowVisited(ea, eb, s, j, k);
    }
  }

  lemma RowVisited(ea: seq<real>, eb: seq<real>, s: Sweep, j: int, k: int)
    requires NorthSouthDone(ea, eb, s) && 1 <= j < |eb| && s.min[j] <= k <= s.max[j]
    ensures 1 <= k < |ea| && RowEdge(ea, k - 1) < RowEdge(ea, k) && eb[j - 1] < eb[j]
    ensures RowEdge(ea, k - 1) < eb[j] && eb[j - 1] < RowEdge(ea, k)
  {
    hide RowWidth;
    assert SouthernCut(ea, eb, s, j) && NorthernCut(ea, eb, s, j);
  }

  // ---------------------------------------------------------------- 2:1 nested grids

  /** The coarse grid made from an even ocean grid (make_hntrA). */
  function CoarseSpec(o: HntrSpec): HntrSpec
  {
    HntrSpec(o.im / 2, o.jm / 2, o.offi * 0.5, o.dlat * 2.0)
  }

  ghost predicate Even(o: HntrSpec)
  {
    o.Valid() && o.im % 2 == 0 && o.jm % 2 == 0
  }

  lemma NestedEdges(o: HntrSpec, k: int, j: int)
    requires Even(o)
    ensures var a := CoarseSpec(o);
            && a.Valid() && o.im == 2 * a.im
            && (EdgeA(a, o, k) <= EdgeB(a, o, j) <==> 2 * (k - a.im) <= j)
            && (EdgeA(a, o, k) < EdgeB(a, o, j) <==> 2 * (k - a.im) < j)
  {
    hide *;
    EvenFacts(o);
    var a := CoarseSpec(o);
    EdgeDifference(a.im as real, o.offi, k as real, j as real);
    ScaledSign(a.im as real, j as real - 2.0 * (k as real - a.im as real));
    EdgeValues(o, k, j);
  }

  lemma EvenFacts(o: HntrSpec)
    requires Even(o)
    ensures var a := CoarseSpec(o); a.Valid() && o.im == 2 * a.im && o.jm == 2 * a.jm && a.im >= 1
  {
  }

  lemma EdgeValues(o: HntrSpec, k: int, j: int)
    requires Even(o)
    ensures var a := CoarseSpec(o);
            && EdgeA(a, o, k) == Prod(k as real + o.offi * 0.5 - a.im as real, 2.0 * (a.im as real))
            && EdgeB(a, o, j) == Prod(j as real + o.offi, a.im as real)
  {
    hide Prod;
  }

  lemma EdgeDifference(m: real, off: real, k: real, j: real)
    ensures Prod(j + off, m) - Prod(k + off * 0.5 - m, 2.0 * m) == Prod(m, j - 2.0 * (k - m))
  {
  }

  /** A fine column lies in exactly one coarse column. */
  lemma NestedColumn(o: HntrSpec, s: Sweep, j: int)
    requires Even(o) && EastWestDone(CoarseSpec(o), o, s) && 1 <= j <= o.im
    ensures s.min[j] == s.max[j] == CoarseSpec(o).im + (j + 1) / 2
  {
    hide Prod, EdgeA, EdgeB;
    var a := CoarseSpec(o);
    assert WesternCut(a, o, s, j);
    NestedEdges(o, s.min[j], j - 1);
    NestedEdges(o, s.min[j] - 1, j - 1);
    NestedEdges(o, 0, j - 1);
    if j < o.im {
      assert EasternCut(a, o, s, j);
      NestedEdges(o, s.max[j], j);
      NestedEdges(o, s.max[j] - 1, j);
    } else {
      NestedEdges(o, s.max[j] - a.im, 0);
      NestedEdges(o, s.max[j] - a.im - 1, 0);
    }
  }

  /** The row edges of the coarse grid are every second row edge of the fine grid. */
  ghost predicate NestedRows(ea: seq<real>, eb: seq<real>)
  {
    |eb| == 2 * |ea| - 1 && forall k :: 0 <= k < |ea| ==> ea[k] == eb[2 * k]
  }

  lemma RisingOrder(e: seq<real>, j: int, k: int)
    requires RowEdges(e) && 0 <= j < |e| && 0 <= k < |e|
    ensures e[j] <= e[k] <==> j <= k
  {
  }

  /** A fine row lies in exactly one coarse row. */
  lemma NestedRow(ea: seq<real>, eb: seq<real>, s: Sweep, j: int)
    requires NorthSouthDone(ea, eb, s) && NestedRows(ea, eb) && 1 <= j < |eb|
    ensures s.min[j] == s.max[j] == (j + 1) / 2
  {
    hide RowEdges, RowWidth;
    assert SouthernCut(ea, eb, s, j) && NorthernCut(ea, eb, s, j);
    RisingOrder(eb, 2 * s.min[j] - 2, j - 1);
    RisingOrder(eb, 2 * s.min[j], j - 1);
    RisingOrder(eb, 2 * s.max[j] - 2, j);
    RisingOrder(eb, j, 2 * s.max[j] - 2);
    RisingOrder(eb, j, 2 * s.max[j]);
  }

  lemma NestedLatitude(o: HntrSpec, k: int)
    requires Even(o)
    ensures CoarseSpec(o).Latitude(k) == o.Latitude(2 * k)
  {
  }
}
