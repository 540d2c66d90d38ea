/**
 What the two sweeps of the latitude/longitude regridder (slib/icebin/modele/hntr.cpp) compute: the
 invariants of partition_east_west and partition_north_south, and what follows from them.

 All cell numbers are 1-based, as in the source; element 0 of the sweep arrays is unused.
 */
module HntrSweeps {
  import opened Vectors
  import opened Sums
  import opened Sweeps
  import opened Ints

  datatype HntrSpec = HntrSpec(im: nat, jm: nat, offi: real, dlat: real) {
    predicate Valid() { im >= 1 && jm >= 1 }

    function Size(): nat { im * jm }

    /** x is the latitude of an edge with j rows to its south and jm - j rows, each dlat minutes high, to its north. */
    predicate IsLatitude(j: int, x: real)
    {
      2.0 * x == Prod(2.0 * j as real - jm as real, dlat)
    }

    /** Latitude, in minutes, of the northern edge of row j. */
    function Latitude(j: int): (x: real)
      ensures IsLatitude(j, x)
    {
      LatitudeIs(j as real, jm as real, dlat);
      Prod(j as real + 0.5 - 0.5 * (1.0 + jm as real), dlat)
    }
  }

  lemma LatitudeIs(j: real, jm: real, dlat: real)
    ensures 2.0 * Prod(j + 0.5 - 0.5 * (1.0 + jm), dlat) == Prod(2.0 * j - jm, dlat)
  {
  }

  /** Rows are dlat high, and lie symmetrically about the equator, jm of them from one outermost edge to the other. */
  lemma LatitudesOf(g: HntrSpec, j: int)
    ensures g.Latitude(j + 1) == g.Latitude(j) + g.dlat
    ensures g.Latitude(g.jm - j) == -g.Latitude(j)
    ensures g.Latitude(0) == -Prod(g.jm as real, g.dlat) / 2.0 && g.Latitude(g.jm) == Prod(g.jm as real, g.dlat) / 2.0
  {
    hide HntrSpec.Latitude, Prod;
    var d, n, i := g.dlat, g.jm as real, 2.0 * (j as real) - g.jm as real;
    ProdPlus(d, i, 1.0);
    ProdPlus(d, i + 1.0, 1.0);
    ProdConst(d);
    ProdPlus(d, i, -i);
    ProdPlus(d, n, -n);
    assert 2.0 * ((g.jm - j) as real) - n == -i;
    assert 2.0 * (0 as real) - n == -n && 2.0 * n - n == n;
  }

  /** Element j of e is the sine of (j - jm / 2) dlat minutes, for every interior row edge j. */
  ghost predicate SinesOfEdges(sine: real -> real, g: HntrSpec, e: seq<real>)
  {
    |e| == g.jm + 1
    && forall j, x :: 1 <= j < g.jm && g.IsLatitude(j, x) ==> e[j] == sine(x)
  }

  /** sine is increasing on the interior row edges of the grid, and the poles lie outside them. */
  ghost predicate Rises(sine: real -> real, g: HntrSpec)
  {
    && (forall j :: 1 <= j < g.jm ==> -1.0 < sine(g.Latitude(j)) < 1.0)
    && forall j, k :: 1 <= j < k < g.jm ==> sine(g.Latitude(j)) < sine(g.Latitude(k))
  }

  function One(k: int): real { 1.0 }

  /** Scaled longitude of the eastern edge of A cell k; the globe has length imA * imB. */
  function EdgeA(a: HntrSpec, b: HntrSpec, k: int): real
  {
    Prod(k as real + a.offi - a.im as real, b.im as real)
  }

  /** Scaled longitude of the eastern edge of B cell j. */
  function EdgeB(a: HntrSpec, b: HntrSpec, j: int): real
  {
    Prod(j as real + b.offi, a.im as real)
  }

  function Wrap(im: nat, k: int): int
    requires im >= 1
  {
    1 + Rem(k - 1, im)
  }

  lemma EdgeSteps(a: HntrSpec, b: HntrSpec, k: int)
    ensures EdgeA(a, b, k + 1) == EdgeA(a, b, k) + b.im as real
    ensures EdgeB(a, b, k + 1) == EdgeB(a, b, k) + a.im as real
    ensures EdgeA(a, b, k + a.im) == EdgeA(a, b, k) + Prod(a.im as real, b.im as real)
    ensures EdgeB(a, b, k + b.im) == EdgeB(a, b, k) + Prod(a.im as real, b.im as real)
  {
  }

  /**
   In whole turns: the first A edge lies offi A cells, less a turn, east of the date line and the first B edge lies offi
   B cells east of it; every cell of a grid takes up the same part of the turn.
   */
  lemma EdgesInTurns(a: HntrSpec, b: HntrSpec, k: int, j: int)
    requires a.Valid() && b.Valid()
    ensures EdgeA(a, b, 0) == Prod(a.offi / a.im as real - 1.0, Turn(a, b))
    ensures EdgeB(a, b, 0) == Prod(b.offi / b.im as real, Turn(a, b))
    ensures EdgeA(a, b, k) - EdgeA(a, b, k - 1) == Turn(a, b) / a.im as real
    ensures EdgeB(a, b, j) - EdgeB(a, b, j - 1) == Turn(a, b) / b.im as real
  {
    TurnOf(a.offi, a.im as real, b.im as real);
    TurnOf(b.offi, b.im as real, a.im as real);
    EdgeSteps(a, b, k - 1);
    EdgeSteps(a, b, j - 1);
  }

  /** The scaled length of the globe: imA * imB. */
  function Turn(a: HntrSpec, b: HntrSpec): real { Prod(a.im as real, b.im as real) }

  lemma TurnOf(offi: real, n: real, m: real)
    requires n > 0.0 && m > 0.0
    ensures Prod(offi - n, m) == Prod(offi / n - 1.0, Prod(n, m)) && Prod(offi, m) == Prod(offi / n, Prod(n, m))
    ensures Prod(n, m) == Prod(m, n) && Prod(n, m) / n == m && Prod(n, m) / m == n
  {
    var q := offi / n;
    assert q * n == offi;
    assert q * (n * m) == (q * n) * m;
    assert (q - 1.0) * (n * m) == q * (n * m) - n * m;
  }

  lemma EdgeOrder(a: HntrSpec, b: HntrSpec, j: int, k: int)
    requires a.Valid() && b.Valid()
    ensures j <= k ==> EdgeA(a, b, j) <= EdgeA(a, b, k) && EdgeB(a, b, j) <= EdgeB(a, b, k)
    ensures j < k ==> EdgeA(a, b, j) < EdgeA(a, b, k) && EdgeB(a, b, j) < EdgeB(a, b, k)
  {
  }

  /** Some A edge lies at or east of x. */
  lemma EdgeBeyond(a: HntrSpec, b: HntrSpec, x: real) returns (n: int)
    requires b.Valid()
    ensures EdgeA(a, b, n) >= x
  {
    var d := b.im as real;
    var t := x / d + a.im as real - a.offi;
    n := t.Floor + 1;
    assert n as real + a.offi - a.im as real >= x / d;
    ScaleUp(x / d, n as real + a.offi - a.im as real, d);
  }

  lemma ScaleUp(x: real, y: real, d: real)
    requires x <= y && d > 0.0
    ensures Prod(x, d) <= Prod(y, d)
  {
  }

  /** A recorded cut: part q of cell c ends at scaled longitude x. */
  ghost predicate EastWestCut(a: HntrSpec, b: HntrSpec, c: int, q: real, x: real)
  {
    && c >= 1 && x <= EdgeA(a, b, c) && Prod(b.im as real, q) == x - EdgeA(a, b, c - 1)
    && (c == 1 || EdgeA(a, b, c - 1) <= x)
  }

  /** The cut does not fall on the western edge of its cell, unless the sweep starts there. */
  ghost predicate EndsInside(a: HntrSpec, b: HntrSpec, c: int, x: real)
  {
    c == 1 || EdgeA(a, b, c - 1) < x
  }

  /** The cut does not fall on the eastern edge of its cell. */
  ghost predicate StartsInside(a: HntrSpec, b: HntrSpec, c: int, x: real)
  {
    x < EdgeA(a, b, c)
  }

  /** The first A cell, one turn to the west, begins no later than the first B cell. */
  predicate FirstEdgeWest(a: HntrSpec, b: HntrSpec)
  {
    EdgeA(a, b, 0) <= EdgeB(a, b, 0)
  }

  ghost predicate EasternCut(a: HntrSpec, b: HntrSpec, s: Sweep, j: int)
    requires s.HasCells(b.im) && 0 <= j <= b.im
  {
    EastWestCut(a, b, s.max[j], 1.0 - s.high[j], EdgeB(a, b, j)) && EndsInside(a, b, s.max[j], EdgeB(a, b, j))
  }

  ghost predicate WesternCut(a: HntrSpec, b: HntrSpec, s: Sweep, j: int)
    requires s.HasCells(b.im) && 0 <= j <= b.im
  {
    EastWestCut(a, b, s.min[j], s.low[j], EdgeB(a, b, j - 1)) && StartsInside(a, b, s.min[j], EdgeB(a, b, j - 1))
  }

  /** The eastern cut of B cell j and the western cut of its neighbour denote the same point. */
  ghost predicate Meets(b: HntrSpec, s: Sweep, j: int)
    requires s.HasCells(b.im) && 0 <= j < b.im
  {
    SameCut(One, s.max[j], 1.0 - s.high[j], s.min[j + 1], s.low[j + 1])
  }

  /** State of the sweep after edges 0..n-1 have been recorded and A cell ia has been reached. */
  ghost predicate EastWestPrefix(a: HntrSpec, b: HntrSpec, s: Sweep, n: nat, ia: int)
  {
    && s.HasCells(b.im) && n <= b.im && ia >= 1
    && (n == 0 ==> ia == 1)
    && (n > 0 ==>
          && ia == s.min[n] && ia <= s.max[b.im] + a.im
          && EastWestCut(a, b, s.max[b.im], 1.0 - s.high[b.im], EdgeB(a, b, 0))
          && EndsInside(a, b, s.max[b.im], EdgeB(a, b, 0))
          && SameCut(One, s.max[b.im], 1.0 - s.high[b.im], s.min[1], s.low[1]))
    && (forall j :: 1 <= j <= n ==> WesternCut(a, b, s, j))
    && forall j :: 1 <= j < n ==> s.min[j] <= s.max[j] && EasternCut(a, b, s, j) && Meets(b, s, j)
  }

  /** What partition_east_west leaves behind; the last cut is recorded one turn further east. */
  ghost predicate EastWestDone(a: HntrSpec, b: HntrSpec, s: Sweep)
  {
    && s.HasCells(b.im) && b.im >= 1
    && (forall j :: 1 <= j <= b.im ==> s.min[j] <= s.max[j] && WesternCut(a, b, s, j))
    && (forall j :: 1 <= j < b.im ==> EasternCut(a, b, s, j) && Meets(b, s, j))
    && EastWestCut(a, b, s.max[b.im] - a.im, 1.0 - s.high[b.im], EdgeB(a, b, 0))
    && EndsInside(a, b, s.max[b.im] - a.im, EdgeB(a, b, 0))
    && SameCut(One, s.max[b.im] - a.im, 1.0 - s.high[b.im], s.min[1], s.low[1])
  }

  /** The array updates of one iteration: A cell ia contains the edge x between B cells ib and ibp1. */
  function Record(s: Sweep, ib: int, ibp1: int, ia: int, ra: real, x: real, dia: real): Sweep
    requires |s.min| > 0 && s.HasCells(|s.min| - 1) && 0 <= ib < |s.min| && 0 <= ibp1 < |s.min| && dia != 0.0
  {
    if ra == x
    then Sweep(s.min[ibp1 := ia + 1], s.max[ib := ia], s.low[ibp1 := 0.0], s.high[ib := 0.0])
    else Sweep(s.min[ibp1 := ia], s.max[ib := ia],
               s.low[ibp1 := 1.0 - (ra - x) / dia], s.high[ib := (ra - x) / dia])
  }

  lemma DivideOut(d: real, y: real)
    requires d != 0.0
    ensures Prod(d, 1.0 - y / d) == d - y
  {
  }

  /** The two cuts that one iteration writes are at x and denote the same point. */
  lemma RecordedCuts(a: HntrSpec, b: HntrSpec, ia: int, x: real, high: real)
    requires a.Valid() && b.Valid() && ia >= 1 && x <= EdgeA(a, b, ia)
    requires ia == 1 || EdgeA(a, b, ia - 1) < x
    requires high == if EdgeA(a, b, ia) == x then 0.0 else (EdgeA(a, b, ia) - x) / (b.im as real)
    ensures EastWestCut(a, b, ia, 1.0 - high, x) && EndsInside(a, b, ia, x)
    ensures EdgeA(a, b, ia) == x ==> EastWestCut(a, b, ia + 1, 0.0, x) && StartsInside(a, b, ia + 1, x)
    ensures EdgeA(a, b, ia) != x ==> StartsInside(a, b, ia, x)
    ensures SameCut(One, ia, 1.0 - high, if EdgeA(a, b, ia) == x then ia + 1 else ia,
                    if EdgeA(a, b, ia) == x then 0.0 else 1.0 - high)
  {
    hide Prod, EdgeA, EdgeB;
    EdgeSteps(a, b, ia - 1);
    EdgeSteps(a, b, ia);
    EdgeOrder(a, b, ia, ia + 1);
    ProdConst(b.im as real);
    if EdgeA(a, b, ia) != x {
      DivideOut(b.im as real, EdgeA(a, b, ia) - x);
    }
  }

  /** The A cell that contains edge n lies at most one turn beyond the one that contains edge 0. */
  lemma WithinOneTurn(a: HntrSpec, b: HntrSpec, c: int, n: nat, k: int)
    requires a.Valid() && b.Valid() && n < b.im
    requires EdgeB(a, b, 0) <= EdgeA(a, b, c) && EdgeA(a, b, k) <= EdgeB(a, b, n)
    ensures k < c + a.im
  {
    hide Prod, EdgeA, EdgeB;
    EdgeSteps(a, b, c);
    EdgeSteps(a, b, 0);
    EdgeOrder(a, b, n, b.im);
    EdgeOrder(a, b, c + a.im, k);
  }

  /** The A cell reached for edge n contains it, and lies within one turn of the cell that contains edge 0. */
  lemma CellReached(a: HntrSpec, b: HntrSpec, s: Sweep, n: nat, ia0: int, ia: int)
    requires a.Valid() && b.Valid() && n < b.im && EastWestPrefix(a, b, s, n, ia0)
    requires ia0 <= ia && EdgeB(a, b, n) <= EdgeA(a, b, ia)
    requires ia == ia0 || EdgeA(a, b, ia - 1) < EdgeB(a, b, n)
    ensures ia == 1 || EdgeA(a, b, ia - 1) < EdgeB(a, b, n)
    ensures n > 0 ==> ia + (if EdgeA(a, b, ia) == EdgeB(a, b, n) then 1 else 0) <= s.max[b.im] + a.im
  {
    hide Prod, EdgeA, EdgeB;
    if n > 0 {
      EdgeOrder(a, b, n - 1, n);
      assert WesternCut(a, b, s, n);
      if EdgeA(a, b, ia) == EdgeB(a, b, n) {
        WithinOneTurn(a, b, s.max[b.im], n, ia);
      } else if ia != ia0 {
        WithinOneTurn(a, b, s.max[b.im], n, ia - 1);
      }
    }
  }

  lemma EastWestStep(a: HntrSpec, b: HntrSpec, s: Sweep, n: nat, ia0: int, ia: int)
    requires a.Valid() && b.Valid() && n < b.im && EastWestPrefix(a, b, s, n, ia0)
    requires ia0 <= ia && EdgeB(a, b, n) <= EdgeA(a, b, ia)
    requires ia == ia0 || EdgeA(a, b, ia - 1) < EdgeB(a, b, n)
    ensures
      var s' := Record(s, if n == 0 then b.im else n, n + 1, ia, EdgeA(a, b, ia), EdgeB(a, b, n), b.im as real);
      EastWestPrefix(a, b, s', n + 1, if EdgeA(a, b, ia) == EdgeB(a, b, n) then ia + 1 else ia)
  {
    hide Prod, EdgeA, EdgeB, EastWestCut, SameCut, EndsInside, StartsInside;
    var x := EdgeB(a, b, n);
    var ib := if n == 0 then b.im else n;
    var s' := Record(s, ib, n + 1, ia, EdgeA(a, b, ia), x, b.im as real);
    CellReached(a, b, s, n, ia0, ia);
    RecordedCuts(a, b, ia, x, s'.high[ib]);
    if n > 0 {
      assert s'.min[n] <= s'.max[n] && EasternCut(a, b, s', n) && Meets(b, s', n);
    }
    assert WesternCut(a, b, s', n + 1);
    forall j | 1 <= j < n ensures s'.min[j] <= s'.max[j] && EasternCut(a, b, s', j) && Meets(b, s', j) {
      assert EasternCut(a, b, s, j) && Meets(b, s, j);
    }
    forall j | 1 <= j <= n ensures WesternCut(a, b, s', j) {
      assert WesternCut(a, b, s, j);
    }
  }

  lemma EastWestClose(a: HntrSpec, b: HntrSpec, s: Sweep, ia: int)
    requires a.Valid() && b.Valid() && EastWestPrefix(a, b, s, b.im, ia)
    ensures EastWestDone(a, b, s.(max := s.max[b.im := s.max[b.im] + a.im]))
  {
    hide Prod, EdgeA, EdgeB, SameCut, EastWestCut, EndsInside, StartsInside;
    var s' := s.(max := s.max[b.im := s.max[b.im] + a.im]);
    forall j | 1 <= j <= b.im
      ensures s'.min[j] <= s'.max[j] && WesternCut(a, b, s', j)
      ensures j < b.im ==> EasternCut(a, b, s', j) && Meets(b, s', j)
    {
      assert WesternCut(a, b, s, j);
      if j < b.im {
        assert EasternCut(a, b, s, j) && Meets(b, s, j);
      }
    }
  }

  // ---------------------------------------------------------------- north-south

  /** Sines of the row edges of a grid, from pole to pole. */
  ghost predicate RowEdges(e: seq<real>)
  {
    |e| >= 2 && e[0] == -1.0 && e[|e| - 1] == 1.0 && forall j, k :: 0 <= j < k < |e| ==> e[j] < e[k]
  }

  /** Edge k of the rows, continued as a constant beyond the poles. */
  function RowEdge(e: seq<real>, k: int): real
    requires |e| > 0
  {
    if k < 0 then e[0] else if k < |e| then e[k] else e[|e| - 1]
  }

  /** Sine extent of each row. */
  ghost function RowWidth(e: seq<real>): int -> real
    requires |e| > 0
  {
    k => RowEdge(e, k) - RowEdge(e, k - 1)
  }

  ghost predicate NorthSouthCut(e: seq<real>, c: int, q: real, x: real)
  {
    1 <= c < |e| && e[c - 1] <= x <= e[c] && q == x - e[c - 1]
  }

  ghost predicate NorthernCut(ea: seq<real>, eb: seq<real>, s: Sweep, j: int)
    requires s.HasCells(|eb| - 1) && 0 <= j < |eb| && |ea| > 0
  {
    NorthSouthCut(ea, s.max[j], RowWidth(ea)(s.max[j]) - s.high[j], eb[j]) && RowEdge(ea, s.max[j] - 1) < eb[j]
  }

  ghost predicate SouthernCut(ea: seq<real>, eb: seq<real>, s: Sweep, j: int)
    requires |ea| > 0 && |eb| > 0 && s.HasCells(|eb| - 1) && 1 <= j < |eb|
  {
    NorthSouthCut(ea, s.min[j], s.low[j], eb[j - 1]) && eb[j - 1] < RowEdge(ea, s.min[j])
  }

  ghost predicate RowsMeet(ea: seq<real>, s: Sweep, j: int)
    requires |ea| > 0 && s.HasCells(|s.min| - 1) && 0 <= j && j + 1 < |s.min|
  {
    SameCut(RowWidth(ea), s.max[j], RowWidth(ea)(s.max[j]) - s.high[j], s.min[j + 1], s.low[j + 1])
  }

  /** State of the sweep when rows 1..n have their southern cut and A row ja has been reached. */
  ghost predicate NorthSouthPrefix(ea: seq<real>, eb: seq<real>, s: Sweep, n: nat, ja: int)
  {
    && RowEdges(ea) && RowEdges(eb) && s.HasCells(|eb| - 1) && 1 <= n < |eb|
    && ja == s.min[n] && s.min[1] == 1 && s.low[1] == 0.0
    && (forall j :: 1 <= j <= n ==> SouthernCut(ea, eb, s, j))
    && forall j :: 1 <= j < n ==> s.min[j] <= s.max[j] && NorthernCut(ea, eb, s, j) && RowsMeet(ea, s, j)
  }

  /** What partition_north_south leaves behind. */
  ghost predicate NorthSouthDone(ea: seq<real>, eb: seq<real>, s: Sweep)
  {
    && RowEdges(ea) && RowEdges(eb) && s.HasCells(|eb| - 1)
    && s.min[1] == 1 && s.low[1] == 0.0 && s.max[|eb| - 1] == |ea| - 1 && s.high[|eb| - 1] == 0.0
    && (forall j :: 1 <= j < |eb| ==>
          s.min[j] <= s.max[j] && SouthernCut(ea, eb, s, j) && NorthernCut(ea, eb, s, j))
    && forall j :: 1 <= j < |eb| - 1 ==> RowsMeet(ea, s, j)
  }

  /** The array updates of one iteration: A row ja contains the northern edge of B row jb. */
  function RecordRow(ea: seq<real>, x: real, s: Sweep, jb: int, ja: int): Sweep
    requires s.HasCells(|s.min| - 1) && 0 <= jb && jb + 1 < |s.min| && 1 <= ja < |ea|
  {
    if ea[ja] == x
    then Sweep(s.min[jb + 1 := ja + 1], s.max[jb := ja], s.low[jb + 1 := 0.0], s.high[jb := 0.0])
    else Sweep(s.min[jb + 1 := ja], s.max[jb := ja],
               s.low[jb + 1 := x - ea[ja - 1]], s.high[jb := ea[ja] - x])
  }

  /** The two cuts that one iteration writes are at x and denote the same point. */
  lemma RecordedRowCuts(ea: seq<real>, ja: int, x: real, high: real)
    requires RowEdges(ea) && 1 <= ja < |ea| && ea[ja - 1] < x <= ea[ja] && x < 1.0
    requires high == if ea[ja] == x then 0.0 else ea[ja] - x
    ensures NorthSouthCut(ea, ja, RowWidth(ea)(ja) - high, x) && RowEdge(ea, ja - 1) < x
    ensures ea[ja] == x ==> NorthSouthCut(ea, ja + 1, 0.0, x) && x < RowEdge(ea, ja + 1)
    ensures ea[ja] != x ==> NorthSouthCut(ea, ja, x - ea[ja - 1], x) && x < RowEdge(ea, ja)
    ensures SameCut(RowWidth(ea), ja, RowWidth(ea)(ja) - high, if ea[ja] == x then ja + 1 else ja,
                    if ea[ja] == x then 0.0 else x - ea[ja - 1])
  {
  }

  lemma EdgeBelowPole(eb: seq<real>, n: int)
    requires RowEdges(eb) && 0 <= n < |eb| - 1
    ensures eb[n] < 1.0
  {
  }

  /** The cuts of row j depend only on what is recorded for row j. */
  lemma RowKept(ea: seq<real>, eb: seq<real>, s: Sweep, s': Sweep, j: int)
    requires |ea| > 0 && |eb| > 0 && s.HasCells(|eb| - 1) && s'.HasCells(|eb| - 1) && 1 <= j < |eb|
    ensures (s.max[j] == s'.max[j] && s.high[j] == s'.high[j] && NorthernCut(ea, eb, s, j))
      ==> NorthernCut(ea, eb, s', j)
    ensures (s.min[j] == s'.min[j] && s.low[j] == s'.low[j] && SouthernCut(ea, eb, s, j))
      ==> SouthernCut(ea, eb, s', j)
    ensures (j + 1 < |eb| && s.max[j] == s'.max[j] && s.high[j] == s'.high[j] && s.min[j + 1] == s'.min[j + 1]
        && s.low[j + 1] == s'.low[j + 1] && RowsMeet(ea, s, j))
      ==> RowsMeet(ea, s', j)
  {
    hide RowEdge, RowWidth, NorthSouthCut, SameCut;
  }

  lemma RowRecorded(ea: seq<real>, eb: seq<real>, s: Sweep, n: nat, ja: int)
    requires RowEdges(ea) && RowEdges(eb) && s.HasCells(|eb| - 1) && 1 <= n && n + 1 < |eb|
    requires 1 <= ja < |ea| && ea[ja - 1] < eb[n] <= ea[ja]
    ensures var s' := RecordRow(ea, eb[n], s, n, ja);
            NorthernCut(ea, eb, s', n) && RowsMeet(ea, s', n) && SouthernCut(ea, eb, s', n + 1)
  {
    hide RowEdges, RowEdge, RowWidth, NorthSouthCut, SameCut;
    var s' := RecordRow(ea, eb[n], s, n, ja);
    EdgeBelowPole(eb, n);
    RecordedRowCuts(ea, ja, eb[n], s'.high[n]);
  }

  lemma NorthSouthStep(ea: seq<real>, eb: seq<real>, s: Sweep, n: nat, ja0: int, ja: int)
    requires NorthSouthPrefix(ea, eb, s, n, ja0) && n + 1 < |eb|
    requires ja0 <= ja < |ea| && 1 <= ja && ea[ja - 1] < eb[n] <= ea[ja]
    ensures NorthSouthPrefix(ea, eb, RecordRow(ea, eb[n], s, n, ja), n + 1,
                             if ea[ja] == eb[n] then ja + 1 else ja)
  {
    hide RowEdges, NorthernCut, SouthernCut, RowsMeet;
    var s' := RecordRow(ea, eb[n], s, n, ja);
    RowRecorded(ea, eb, s, n, ja);
    forall j | 1 <= j < n ensures s'.min[j] <= s'.max[j] && NorthernCut(ea, eb, s', j) && RowsMeet(ea, s', j) {
      RowKept(ea, eb, s, s', j);
    }
    forall j | 1 <= j <= n ensures SouthernCut(ea, eb, s', j) {
      RowKept(ea, eb, s, s', j);
    }
  }

  lemma NorthPole(ea: seq<real>)
    requires RowEdges(ea)
    ensures NorthSouthCut(ea, |ea| - 1, RowWidth(ea)(|ea| - 1) - 0.0, 1.0) && RowEdge(ea, |ea| - 2) < 1.0
  {
  }

  lemma SouthernCutRange(ea: seq<real>, eb: seq<real>, s: Sweep, j: int)
    requires |ea| > 0 && |eb| > 0 && s.HasCells(|eb| - 1) && 1 <= j < |eb| && SouthernCut(ea, eb, s, j)
    ensures 1 <= s.min[j] < |ea|
  {
  }

  lemma RowEdgeEnds(e: seq<real>)
    requires RowEdges(e)
    ensures |e| >= 2 && e[0] == -1.0 && e[|e| - 1] == 1.0
  {
  }

  lemma NorthSouthClose(ea: seq<real>, eb: seq<real>, s: Sweep, ja: int)
    requires |eb| > 0 && NorthSouthPrefix(ea, eb, s, |eb| - 1, ja)
    ensures NorthSouthDone(ea, eb, s.(max := s.max[|eb| - 1 := |ea| - 1], high := s.high[|eb| - 1 := 0.0]))
  {
    hide RowEdges, RowEdge, RowWidth, NorthSouthCut, SameCut;
    var n := |eb| - 1;
    var s' := s.(max := s.max[n := |ea| - 1], high := s.high[n := 0.0]);
    RowEdgeEnds(ea);
    RowEdgeEnds(eb);
    SouthernCutRange(ea, eb, s, n);
    NorthPole(ea);
    assert NorthernCut(ea, eb, s', n);
    forall j | 1 <= j < |eb|
      ensures s'.min[j] <= s'.max[j] && SouthernCut(ea, eb, s', j) && NorthernCut(ea, eb, s', j)
      ensures j < n ==> RowsMeet(ea, s', j)
    {
      assert SouthernCut(ea, eb, s, j);
      if j < n {
        assert NorthernCut(ea, eb, s, j) && RowsMeet(ea, s, j);
      }
    }
  }

  // ---------------------------------------------------------------- tiling

  lemma SweepLink(a: HntrSpec, b: HntrSpec, s: Sweep, j: int)
    requires a.Valid() && EastWestDone(a, b, s) && 1 <= j <= b.im
    ensures 1 <= s.min[j] <= s.max[j]
    ensures j >= 2 ==> SameCut(One, s.max[j - 1], One(s.max[j - 1]) - s.high[j - 1], s.min[j], s.low[j])
  {
    hide Prod, EdgeA, EdgeB, SameCut;
    assert WesternCut(a, b, s, j);
    if j >= 2 {
      assert Meets(b, s, j - 1);
    }
  }

  lemma SweepIsLinked(a: HntrSpec, b: HntrSpec, s: Sweep)
    requires a.Valid() && EastWestDone(a, b, s)
    ensures s.Linked(One, b.im)
  {
    hide *;
    SpecSizes(a, b, s);
    LinkedSize(s, b.im);
    forall j | 1 <= j <= b.im
      ensures 1 <= s.min[j] <= s.max[j]
      ensures j >= 2 ==> SameCut(One, s.max[j - 1], One(s.max[j - 1]) - s.high[j - 1], s.min[j], s.low[j])
    {
      SweepLink(a, b, s, j);
    }
    LinkedIntro(s, One, b.im);
  }

  lemma WrapPeriod(im: nat, k: int)
    requires im >= 1 && k >= 1
    ensures Wrap(im, k + im) == Wrap(im, k)
    ensures k <= im ==> Wrap(im, k) == k
    ensures 1 <= Wrap(im, k) <= im
  {
    hide Rem;
    RemAdd(k - 1, im);
    DivMod(k - 1, im);
    if k <= im {
      RemSmall(k - 1, im);
    }
  }

  /** A field on A cells 1..im, continued around the globe. */
  ghost function Around(im: nat, g: int -> real): int -> real
    requires im >= 1
  {
    k => if k >= 1 then g(Wrap(im, k)) else 0.0
  }

  lemma AroundPeriod(im: nat, g: int -> real, k: int)
    requires im >= 1 && k >= 1
    ensures Around(im, g)(k + im) == Around(im, g)(k)
    ensures k <= im ==> Around(im, g)(k) == g(k)
  {
    hide Wrap;
    WrapPeriod(im, k);
  }

  /** One more turn adds the integral over all A cells. */
  lemma UpToOneTurn(im: nat, g: int -> real, c: int, q: real)
    requires im >= 1 && c >= 1
    ensures UpTo(One, Around(im, g), c + im, q) == UpTo(One, Around(im, g), c, q) + RangeSum(1, im + 1, g)
  {
    hide *;
    var h := Around(im, g);
    UnitWeight(h, c + im, q);
    UnitWeight(h, c, q);
    RangeSumSplit(1, im + 1, c + im, h);
    forall k | k >= 1 ensures h(k) == h(k + im) && (k <= im ==> h(k) == g(k)) {
      AroundPeriod(im, g, k);
    }
    RangeSumShift(1, c, im, h, h);
    RangeSumSame(1, im + 1, h, g);
  }

  lemma UnitWeight(h: int -> real, c: int, q: real)
    ensures UpTo(One, h, c, q) == RangeSum(1, c, h) + Prod(q, h(c))
  {
    hide Prod;
    forall k | 1 <= k < c ensures Prod(One(k), h(k)) == h(k) {
      ProdConst(h(k));
    }
    RangeSumSame(1, c, k => Prod(One(k), h(k)), h);
  }

  /**
   East-west tiling: over all B cells, and counting A cells around the date line, every A cell is used
   exactly once.  No condition on the offsets is needed.
   */
  lemma EastWestTiles(a: HntrSpec, b: HntrSpec, s: Sweep, g: int -> real)
    requires a.Valid() && EastWestDone(a, b, s)
    ensures s.Rows(One, Around(a.im, g), b.im) == RangeSum(1, a.im + 1, g)
  {
    hide *;
    SpecSizes(a, b, s);
    var h := Around(a.im, g);
    SweepIsLinked(a, b, s);
    RowsTelescope(s, One, h, b.im, b.im);
    var c, q := SweepEnds(a, b, s, h);
    UpToOneTurn(a.im, g, c, q);
  }

  lemma SpecSizes(a: HntrSpec, b: HntrSpec, s: Sweep)
    requires a.Valid() && EastWestDone(a, b, s)
    ensures a.im >= 1 && b.im >= 1 && s.HasCells(b.im)
  {
  }

  lemma SweepEnds(a: HntrSpec, b: HntrSpec, s: Sweep, h: int -> real) returns (c: int, q: real)
    requires a.Valid() && EastWestDone(a, b, s)
    ensures a.im >= 1 && b.im >= 1 && c >= 1
    ensures s.End(One, h, b.im) == UpTo(One, h, c + a.im, q) && s.Start(One, h, 1) == UpTo(One, h, c, q)
  {
    hide Prod, EdgeA, EdgeB, SameCut, UpTo;
    c, q := s.max[b.im] - a.im, 1.0 - s.high[b.im];
    SameCutUpTo(One, h, c, q, s.min[1], s.low[1]);
  }

  /** North-south tiling: every A row is used over its full extent. */
  lemma NorthSouthTiles(ea: seq<real>, eb: seq<real>, s: Sweep, h: int -> real)
    requires NorthSouthDone(ea, eb, s)
    ensures s.Rows(RowWidth(ea), h, |eb| - 1) == RowsIntegral(ea, h)
  {
    hide *;
    RowsAreLinked(ea, eb, s);
    RowsTelescope(s, RowWidth(ea), h, |eb| - 1, |eb| - 1);
    RowEnds(ea, eb, s, h);
  }

  ghost function RowsIntegral(ea: seq<real>, h: int -> real): real
    requires |ea| > 0
  {
    RangeSum(1, |ea|, k => Prod(RowWidth(ea)(k), h(k)))
  }

  lemma RowEnds(ea: seq<real>, eb: seq<real>, s: Sweep, h: int -> real)
    requires NorthSouthDone(ea, eb, s)
    ensures |eb| >= 2
    ensures s.End(RowWidth(ea), h, |eb| - 1) == RowsIntegral(ea, h)
    ensures s.Start(RowWidth(ea), h, 1) == 0.0
  {
    hide Prod, RowWidth, NorthernCut, SouthernCut, RowsMeet;
    var w, m := RowWidth(ea), |ea| - 1;
    ProdConst(h(1));
    RangeSumLast(1, m, k => Prod(w(k), h(k)));
    RangeSumSame(1, m, k => Prod(w(k), h(k)), k => Prod(RowWidth(ea)(k), h(k)));
    RangeSumSame(1, |ea|, k => Prod(w(k), h(k)), k => Prod(RowWidth(ea)(k), h(k)));
  }

  lemma RowLink(ea: seq<real>, eb: seq<real>, s: Sweep, j: int)
    requires NorthSouthDone(ea, eb, s) && 1 <= j < |eb|
    ensures 1 <= s.min[j] <= s.max[j]
    ensures j >= 2 ==>
              SameCut(RowWidth(ea), s.max[j - 1], RowWidth(ea)(s.max[j - 1]) - s.high[j - 1], s.min[j], s.low[j])
  {
    hide Prod, RowWidth, SameCut;
    assert SouthernCut(ea, eb, s, j);
    if j >= 2 {
      assert RowsMeet(ea, s, j - 1);
    }
  }

  lemma RowCounts(ea: seq<real>, eb: seq<real>, s: Sweep)
    requires NorthSouthDone(ea, eb, s)
    ensures |eb| >= 2 && |ea| >= 2 && s.HasCells(|eb| - 1)
  {
  }

  lemma RowsAreLinked(ea: seq<real>, eb: seq<real>, s: Sweep)
    requires NorthSouthDone(ea, eb, s)
    ensures |eb| >= 2 && |ea| >= 2 && s.Linked(RowWidth(ea), |eb| - 1)
  {
    hide *;
    RowCounts(ea, eb, s);
    LinkedSize(s, |eb| - 1);
    var w := RowWidth(ea);
    forall j | 1 <= j <= |eb| - 1
      ensures 1 <= s.min[j] <= s.max[j]
      ensures j >= 2 ==> SameCut(w, s.max[j - 1], w(s.max[j - 1]) - s.high[j - 1], s.min[j], s.low[j])
    {
      RowLink(ea, eb, s, j);
    }
    LinkedIntro(s, w, |eb| - 1);
  }
}
